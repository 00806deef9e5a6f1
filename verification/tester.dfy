/** The online tester: it polls the checkpoint directory for a newer step,
    evaluates that checkpoint over a fixed number of episodes, and keeps the
    best-scoring parameters in the file `best`.

    The directory is a map from file name to parameter blob; `os.listdir` is an
    input sequence of names (in any order); the environment is the sequence of
    step outcomes it reports. */
module Tester {
  import opened Wrappers
  import Decimal
  import Evaluation

  /** Name of the file holding the best model so far. */
  const BestName: string := "best"

  /** `[int(s) for s in names if s.isdigit()]`. */
  function ListedSteps(names: seq<string>): (r: seq<nat>)
    ensures forall k :: k in r <==>
              exists i :: 0 <= i < |names| && Decimal.IsDigitName(names[i]) && Decimal.ParseNat(names[i]) == k
    decreases |names|
  {
    if |names| == 0 then []
    else
      var rest := ListedSteps(names[..|names| - 1]);
      var name := names[|names| - 1];
      assert forall i :: 0 <= i < |names| - 1 ==> names[..|names| - 1][i] == names[i];
      if Decimal.IsDigitName(name) then rest + [Decimal.ParseNat(name)] else rest
  }

  /** `sorted(steps)[-1]`: the largest listed step. */
  function MaxOf(steps: seq<nat>): (m: nat)
    requires |steps| > 0
    ensures m in steps
    ensures forall s :: s in steps ==> s <= m
    decreases |steps|
  {
    if |steps| == 1 then steps[0]
    else
      var rest := MaxOf(steps[1..]);
      assert forall s :: s in steps ==> s == steps[0] || s in steps[1..];
      if steps[0] >= rest then steps[0] else rest
  }

  /** What `_check_updated_model` returns: a pair `(updated, step)`, or no value
      at all when it falls off the end of its `if`/`elif` chain. */
  datatype Detection = Detected(updated: bool, step: int) | NoneReturned

  /** `_check_updated_model` as written: `(False, -1)` when no name is numeric
      or the largest step is the one last tested, `(True, max)` when the largest
      step is newer, and no value when the largest step is older. */
  function CheckUpdatedModel(names: seq<string>, curr: int): (d: Detection)
    // only the largest listed step is ever reported, and only when it is newer
    ensures d.Detected? && d.updated ==>
              d.step in ListedSteps(names) && d.step > curr
              && forall s :: s in ListedSteps(names) ==> s <= d.step
    ensures (d.Detected? && d.updated) <==> exists s :: s in ListedSteps(names) && s > curr
    // otherwise the answer is (False, -1): nothing listed, or the newest is `curr`
    ensures d.Detected? && !d.updated ==> d.step == -1
    ensures d == Detected(false, -1) <==>
              (|ListedSteps(names)| == 0
               || (curr in ListedSteps(names) && forall s :: s in ListedSteps(names) ==> s <= curr))
    // no value: every listed step is older than `curr`
    ensures d.NoneReturned? <==>
              |ListedSteps(names)| > 0 && forall s :: s in ListedSteps(names) ==> s < curr
  {
    var steps := ListedSteps(names);
    if |steps| == 0 then Detected(false, -1)
    else if MaxOf(steps) == curr then Detected(false, -1)
    else if MaxOf(steps) > curr then Detected(true, MaxOf(steps))
    else NoneReturned
  }

  /** The detection with the missing branch filled in: a listing whose newest
      step is older than `curr` is treated as "nothing new". */
  function CheckUpdatedModelGuarded(names: seq<string>, curr: int): (d: Detection)
    ensures d.Detected?
    ensures d.updated ==>
              d.step in ListedSteps(names) && d.step > curr
              && forall s :: s in ListedSteps(names) ==> s <= d.step
    ensures d.updated <==> exists s :: s in ListedSteps(names) && s > curr
    ensures !d.updated ==> d.step == -1
  {
    match CheckUpdatedModel(names, curr)
    case NoneReturned => Detected(false, -1)
    case Detected(u, s) => Detected(u, s)
  }

  /** The tester's bookkeeping: the best mean reward so far (`None` stands for
      the initial `-inf`) and the step last tested. */
  datatype TesterState = TesterState(best: Option<real>, curr: int)

  /** `OnlineTester.__init__`: best reward `-inf`, no step tested (`-1`). */
  function Init(): (t: TesterState)
    ensures t.best.None? && t.curr < 0
  {
    TesterState(None, -1)
  }

  /** `online_eval_episode` and `max_step`. */
  datatype Config = Config(onlineEvalEpisode: int, maxStep: int)

  /** Order on best rewards, `None` (minus infinity) below everything. */
  predicate AtMost(a: Option<real>, b: Option<real>) {
    a.None? || (b.Some? && a.value <= b.value)
  }

  /** `mean >= best`, with `None` as minus infinity. */
  predicate Improves(mean: real, best: Option<real>) {
    AtMost(best, Some(mean))
  }

  /** One evaluation: the step tested, its mean reward, and whether it became
      the new best. */
  datatype EvalRecord = EvalRecord(step: int, mean: real, savedBest: bool)

  /** Ways a tick raises, ending the evaluation thread: unpacking the missing
      return value (`TypeError`), loading a checkpoint file that does not exist,
      the environment trace running out, and `sum / 0` when
      `online_eval_episode` is zero. */
  datatype TickError = UnpackNone | CheckpointMissing(name: string) | EnvironmentExhausted | ZeroDivision

  /** The tester and the directory after one tick, and the evaluation made, if any. */
  datatype Tick<P> = Tick(state: TesterState, dir: map<string, P>, record: Option<EvalRecord>)

  /** The mean of a pass: `sum_eval_reward / online_eval_episode`. */
  function Mean(sum: real, episodes: int): real
    requires episodes != 0
  {
    sum / (episodes as real)
  }

  /** One iteration of `_eval_policy`'s loop, given the detection result:
      on an update, test the detected step, play the episodes, and replace the
      best model when the mean is at least the best so far (ties replace). */
  function EvalWith<P>(cfg: Config, t: TesterState, dir: map<string, P>, d: Detection,
                       trace: seq<Evaluation.StepOutcome>): (r: Result<Tick<P>, TickError>)
    // the missing return value cannot be unpacked
    ensures d.NoneReturned? ==> r == Err(UnpackNone)
    // nothing new: nothing changes
    ensures d.Detected? && !d.updated ==> r == Ok(Tick(t, dir, None))
    // something new: the detected step is tested and becomes `curr`
    ensures r.Ok? && d.Detected? && d.updated ==>
              r.value.record.Some? && r.value.record.value.step == d.step && r.value.state.curr == d.step
    ensures r.Ok? && r.value.record.Some? ==>
              var rec := r.value.record.value;
              && d == Detected(true, rec.step)
              && Decimal.IntToString(rec.step) in dir
              && Evaluation.RunEpisodes(trace, Evaluation.EpisodeCount(cfg.onlineEvalEpisode), cfg.maxStep).Some?
              && cfg.onlineEvalEpisode != 0
              && rec.mean * (cfg.onlineEvalEpisode as real)
                 == Evaluation.RunEpisodes(trace, Evaluation.EpisodeCount(cfg.onlineEvalEpisode), cfg.maxStep).value.sum
              // the best is replaced exactly when the mean is at least the best so far
              && (rec.savedBest <==> Improves(rec.mean, t.best))
              && (rec.savedBest ==> r.value.state.best == Some(rec.mean)
                                    && r.value.dir == dir[BestName := dir[Decimal.IntToString(rec.step)]])
              && (!rec.savedBest ==> r.value.state.best == t.best && r.value.dir == dir)
    // the best reward never decreases
    ensures r.Ok? ==> AtMost(t.best, r.value.state.best)
    // the error cases of an evaluation
    ensures d.Detected? && d.updated && Decimal.IntToString(d.step) !in dir ==>
              r == Err(CheckpointMissing(Decimal.IntToString(d.step)))
    ensures d.Detected? && d.updated && Decimal.IntToString(d.step) in dir
            && Evaluation.RunEpisodes(trace, Evaluation.EpisodeCount(cfg.onlineEvalEpisode), cfg.maxStep).None? ==>
              r == Err(EnvironmentExhausted)
    ensures d.Detected? && d.updated && Decimal.IntToString(d.step) in dir
            && Evaluation.RunEpisodes(trace, Evaluation.EpisodeCount(cfg.onlineEvalEpisode), cfg.maxStep).Some?
            && cfg.onlineEvalEpisode == 0 ==>
              r == Err(ZeroDivision)
    // an update is always evaluated once its file loads, the episodes finish
    // and the count is not zero
    ensures d.Detected? && d.updated ==>
              (r.Ok? <==> Decimal.IntToString(d.step) in dir && cfg.onlineEvalEpisode != 0
                          && Evaluation.RunEpisodes(trace, Evaluation.EpisodeCount(cfg.onlineEvalEpisode), cfg.maxStep).Some?)
  {
    match d
    case NoneReturned => Err(UnpackNone)
    case Detected(updated, step) =>
      if !updated then Ok(Tick(t, dir, None))
      else
        var name := Decimal.IntToString(step);
        if name !in dir then Err(CheckpointMissing(name))
        else
          var params := dir[name];
          match Evaluation.RunEpisodes(trace, Evaluation.EpisodeCount(cfg.onlineEvalEpisode), cfg.maxStep)
          case None => Err(EnvironmentExhausted)
          case Some(pass) =>
            if cfg.onlineEvalEpisode == 0 then Err(ZeroDivision)
            else
              var mean := Mean(pass.sum, cfg.onlineEvalEpisode);
              if Improves(mean, t.best) then
                Ok(Tick(TesterState(Some(mean), step), dir[BestName := params], Some(EvalRecord(step, mean, true))))
              else
                Ok(Tick(TesterState(t.best, step), dir, Some(EvalRecord(step, mean, false))))
  }

  /** The conditions under which a tick evaluates: some listed step is newer
      than `curr`, the newest one's file is in the directory, the environment
      finishes every episode, and the episode count is not zero. */
  predicate Evaluates<P>(cfg: Config, dir: map<string, P>, names: seq<string>, curr: int,
                         trace: seq<Evaluation.StepOutcome>) {
    && (exists s :: s in ListedSteps(names) && s > curr
                    && Decimal.IntToString(s) in dir
                    && forall s' :: s' in ListedSteps(names) ==> s' <= s)
    && cfg.onlineEvalEpisode != 0
    && Evaluation.RunEpisodes(trace, Evaluation.EpisodeCount(cfg.onlineEvalEpisode), cfg.maxStep).Some?
  }

  /** A detection that reports exactly the newer maximum leads to an
      evaluation exactly when `Evaluates` holds. */
  lemma DetectionEvaluates<P>(cfg: Config, dir: map<string, P>, names: seq<string>, curr: int,
                              trace: seq<Evaluation.StepOutcome>, d: Detection)
    requires d.Detected? && d.updated ==>
               d.step in ListedSteps(names) && d.step > curr
               && forall s :: s in ListedSteps(names) ==> s <= d.step
    requires (d.Detected? && d.updated) <==> exists s :: s in ListedSteps(names) && s > curr
    ensures Evaluates(cfg, dir, names, curr, trace) <==>
              && d.Detected? && d.updated && Decimal.IntToString(d.step) in dir && cfg.onlineEvalEpisode != 0
              && Evaluation.RunEpisodes(trace, Evaluation.EpisodeCount(cfg.onlineEvalEpisode), cfg.maxStep).Some?
  {
    if Evaluates(cfg, dir, names, curr, trace) {
      var s :| s in ListedSteps(names) && s > curr && Decimal.IntToString(s) in dir
               && forall s' :: s' in ListedSteps(names) ==> s' <= s;
      assert d.step == s;
    }
  }

  /** One tick of `_eval_policy` as the source writes it. */
  function EvalTick<P>(cfg: Config, t: TesterState, dir: map<string, P>, names: seq<string>,
                       trace: seq<Evaluation.StepOutcome>): (r: Result<Tick<P>, TickError>)
    // the tick dies unpacking a missing detection exactly when every listed step is older than the tested one
    ensures r == Err(UnpackNone) <==>
              |ListedSteps(names)| > 0 && forall s :: s in ListedSteps(names) ==> s < t.curr
    // a tested step is the largest listed one and strictly newer than the last
    ensures r.Ok? && r.value.record.Some? ==>
              var step := r.value.record.value.step;
              && step in ListedSteps(names) && step > t.curr && r.value.state.curr == step
              && (forall s :: s in ListedSteps(names) ==> s <= step)
    ensures r.Ok? && r.value.record.None? ==> r.value.state == t && r.value.dir == dir
    ensures r.Ok? ==> AtMost(t.best, r.value.state.best)
    // a newer listed step is always evaluated unless its evaluation raises
    ensures r.Ok? && r.value.record.None? ==> forall s :: s in ListedSteps(names) ==> s <= t.curr
    ensures r.Ok? && r.value.record.Some? ==> Evaluates(cfg, dir, names, t.curr, trace)
    ensures Evaluates(cfg, dir, names, t.curr, trace) ==> r.Ok? && r.value.record.Some?
    // every error has its cause
    ensures r.Err? && r.error.CheckpointMissing? ==> r.error.name !in dir
    ensures r == Err(EnvironmentExhausted) ==>
              Evaluation.RunEpisodes(trace, Evaluation.EpisodeCount(cfg.onlineEvalEpisode), cfg.maxStep).None?
    ensures r == Err(ZeroDivision) ==> cfg.onlineEvalEpisode == 0
  {
    var d := CheckUpdatedModel(names, t.curr);
    DetectionEvaluates(cfg, dir, names, t.curr, trace, d);
    EvalWith(cfg, t, dir, d, trace)
  }

  /** One tick with the guarded detection: a stale listing is a quiet tick. */
  function EvalTickGuarded<P>(cfg: Config, t: TesterState, dir: map<string, P>, names: seq<string>,
                              trace: seq<Evaluation.StepOutcome>): (r: Result<Tick<P>, TickError>)
    ensures r != Err(UnpackNone)
    ensures r.Ok? && r.value.record.Some? ==>
              var step := r.value.record.value.step;
              && step in ListedSteps(names) && step > t.curr && r.value.state.curr == step
              && (forall s :: s in ListedSteps(names) ==> s <= step)
    ensures r.Ok? && r.value.record.None? ==> r.value.state == t && r.value.dir == dir
    ensures r.Ok? ==> AtMost(t.best, r.value.state.best)
    ensures r.Ok? && r.value.record.Some? ==>
              var rec := r.value.record.value;
              var name := Decimal.IntToString(rec.step);
              && (rec.savedBest <==> Improves(rec.mean, t.best))
              && (rec.savedBest ==> r.value.state.best == Some(rec.mean)
                                    && name in dir && r.value.dir == dir[BestName := dir[name]])
              && (!rec.savedBest ==> r.value.state.best == t.best && r.value.dir == dir)
    // a newer listed step is always evaluated unless its evaluation raises
    ensures r.Ok? && r.value.record.None? ==> forall s :: s in ListedSteps(names) ==> s <= t.curr
    ensures r.Ok? && r.value.record.Some? ==> Evaluates(cfg, dir, names, t.curr, trace)
    ensures Evaluates(cfg, dir, names, t.curr, trace) ==> r.Ok? && r.value.record.Some?
    // every error has its cause
    ensures r.Err? && r.error.CheckpointMissing? ==> r.error.name !in dir
    ensures r == Err(EnvironmentExhausted) ==>
              Evaluation.RunEpisodes(trace, Evaluation.EpisodeCount(cfg.onlineEvalEpisode), cfg.maxStep).None?
    ensures r == Err(ZeroDivision) ==> cfg.onlineEvalEpisode == 0
  {
    var d := CheckUpdatedModelGuarded(names, t.curr);
    DetectionEvaluates(cfg, dir, names, t.curr, trace, d);
    EvalWith(cfg, t, dir, d, trace)
  }

  /** The guarded tick differs from the source's only where the source dies. */
  lemma GuardedAgreesOtherwise<P>(cfg: Config, t: TesterState, dir: map<string, P>, names: seq<string>,
                                  trace: seq<Evaluation.StepOutcome>)
    ensures EvalTick(cfg, t, dir, names, trace) != Err(UnpackNone) ==>
              EvalTick(cfg, t, dir, names, trace) == EvalTickGuarded(cfg, t, dir, names, trace)
    ensures EvalTick(cfg, t, dir, names, trace) == Err(UnpackNone) ==>
              EvalTickGuarded(cfg, t, dir, names, trace) == Ok(Tick(t, dir, None))
  {
  }

  /** The source's `_check_updated_model` returns no value when the listing's
      newest step is older than the last one tested, e.g. after step 20 was
      tested a listing holding only "10"; the tick then dies unpacking it. */
  lemma StaleListingKillsTick<P>(cfg: Config, dir: map<string, P>, trace: seq<Evaluation.StepOutcome>)
    ensures EvalTick(cfg, TesterState(Some(1.0), 20), dir, ["10"], trace) == Err(UnpackNone)
  {
    assert ListedSteps(["10"]) == [10] by {
      assert ["10"][..0] == [];
      assert Decimal.IsDigitName("10");
      assert Decimal.ParseNat("10") == 10 by {
        assert "10"[..1] == "1" && "1"[..0] == "";
      }
    }
  }

  /** With the guard, a stale listing is a quiet tick, and no tick dies
      unpacking a missing value. */
  lemma GuardedStaleListingIsQuiet<P>(cfg: Config, t: TesterState, dir: map<string, P>, names: seq<string>,
                                      trace: seq<Evaluation.StepOutcome>)
    requires |ListedSteps(names)| > 0 && forall s :: s in ListedSteps(names) ==> s < t.curr
    ensures EvalTickGuarded(cfg, t, dir, names, trace) == Ok(Tick(t, dir, None))
  {
  }

  /** A checkpoint the model manager writes for a non-negative step is listed
      as exactly that step; one for a negative step, and the best-model file,
      are never taken for steps. */
  lemma CheckpointNamesListed(step: int)
    ensures step >= 0 ==> ListedSteps([Decimal.IntToString(step)]) == [step]
    ensures step < 0 ==> ListedSteps([Decimal.IntToString(step)]) == []
    ensures ListedSteps([BestName]) == []
    ensures Decimal.IntToString(step) != BestName
  {
    assert [Decimal.IntToString(step)][..0] == [];
    assert [BestName][..0] == [];
    assert !Decimal.IsDigit(BestName[0]);
    if step >= 0 {
      Decimal.ParseOfShow(step);
    }
    if Decimal.IntToString(step) == BestName {
      if step >= 0 {
        assert Decimal.IsDigit(Decimal.IntToString(step)[0]);
      }
    }
  }

  /** A first poll that lists steps 10 and 20 (and `best`) reports only 20; once
      20 is tested, a poll that also lists 30 reports only 30. */
  lemma NewestStepScenario()
    ensures CheckUpdatedModel(["10", "20", "best"], -1) == Detected(true, 20)
    ensures CheckUpdatedModel(["10", "20", "30", "best"], 20) == Detected(true, 30)
  {
    TwoStepsListed();
    ThreeStepsListed();
    assert MaxOf([10, 20]) == 20;
    assert MaxOf([10, 20, 30]) == 30;
  }

  /** The listing of the first poll in `NewestStepScenario`. */
  lemma TwoStepsListed()
    ensures ListedSteps(["10", "20", "best"]) == [10, 20]
  {
    TenTwentyListed();
    BestNotListed(["10", "20"]);
    assert ["10", "20"] + [BestName] == ["10", "20", "best"];
  }

  /** The listing of the second poll in `NewestStepScenario`. */
  lemma ThreeStepsListed()
    ensures ListedSteps(["10", "20", "30", "best"]) == [10, 20, 30]
  {
    TenTwentyListed();
    assert Decimal.IsDigitName("30") && Decimal.ParseNat("30") == 30 by {
      assert "30"[..1] == "3" && "3"[..0] == "";
    }
    ListedSnoc(["10", "20"], "30");
    assert ["10", "20"] + ["30"] == ["10", "20", "30"];
    BestNotListed(["10", "20", "30"]);
    assert ["10", "20", "30"] + [BestName] == ["10", "20", "30", "best"];
  }

  /** The steps listed for the names "10" and "20". */
  lemma TenTwentyListed()
    ensures ListedSteps(["10", "20"]) == [10, 20]
  {
    assert Decimal.IsDigitName("10") && Decimal.ParseNat("10") == 10 by {
      assert "10"[..1] == "1" && "1"[..0] == "";
    }
    assert Decimal.IsDigitName("20") && Decimal.ParseNat("20") == 20 by {
      assert "20"[..1] == "2" && "2"[..0] == "";
    }
    ListedSnoc([], "10");
    assert [] + ["10"] == ["10"];
    ListedSnoc(["10"], "20");
    assert ["10"] + ["20"] == ["10", "20"];
  }

  /** Listing `best` as well adds no step. */
  lemma BestNotListed(names: seq<string>)
    ensures ListedSteps(names + [BestName]) == ListedSteps(names)
  {
  }

  /** Listing one more name adds its step at the end when it is numeric. */
  lemma ListedSnoc(names: seq<string>, name: string)
    ensures ListedSteps(names + [name])
         == ListedSteps(names) + if Decimal.IsDigitName(name) then [Decimal.ParseNat(name)] else []
  {
  }
}
