/** The online tester's evaluation loop over a sequence of polls, and what it
    guarantees across them: tested steps only move forward, the best reward is
    the running maximum, and the file `best` holds the checkpoint of the last
    evaluation that replaced it. */
module TesterRun {
  import opened Wrappers
  import Decimal
  import Evaluation
  import opened Tester

  /** What one poll sees: the directory listing and, should it evaluate, the
      outcomes the environment reports. */
  datatype TickInput = TickInput(names: seq<string>, trace: seq<Evaluation.StepOutcome>)

  /** The tester after a run of ticks: final state and directory, the
      evaluations made in order, the error that ended the loop, if any, and the
      step that the failing tick had already made `curr_test_step`, if any. */
  datatype RunOut<P> = RunOut(state: TesterState, dir: map<string, P>, records: seq<EvalRecord>,
                              stopped: Option<TickError>, aborted: Option<int>)

  function Made(record: Option<EvalRecord>): seq<EvalRecord> {
    if record.Some? then [record.value] else []
  }

  /** The step a failing tick has already made `curr_test_step`: `_eval_policy`
      assigns the detected step before it loads the file, plays the episodes
      or divides, so a tick that raises there leaves the new step behind. */
  function AbortedStep(t: TesterState, names: seq<string>): Option<int> {
    var d := CheckUpdatedModelGuarded(names, t.curr);
    if d.updated then Some(d.step) else None
  }

  /** `step` is the newest step listed by one of the polls. */
  ghost predicate Polled(inputs: seq<TickInput>, step: int) {
    exists i :: 0 <= i < |inputs| && step in ListedSteps(inputs[i].names)
                && forall s :: s in ListedSteps(inputs[i].names) ==> s <= step
  }

  /** The loop ended by error `e` at a poll that listed `names`; the tester
      keeps its best reward and holds the aborted step, if any, as `curr`. */
  function Stop<P>(t: TesterState, dir: map<string, P>, names: seq<string>, e: TickError): RunOut<P> {
    var a := AbortedStep(t, names);
    RunOut(if a.Some? then TesterState(t.best, a.value) else t, dir, [], Some(e), a)
  }

  /** The evaluation loop over a sequence of polls, with the guarded detection;
      an error ends the loop. */
  function Run<P>(cfg: Config, t: TesterState, dir: map<string, P>, inputs: seq<TickInput>): (r: RunOut<P>)
    // the loop stops only on an evaluation that raised, after making its step `curr`
    ensures r.aborted.Some? <==> r.stopped.Some?
    ensures r.stopped != Some(UnpackNone)
    ensures r.aborted.Some? ==> r.state.curr == r.aborted.value
    // the aborted step is the newest step some poll listed
    ensures r.aborted.Some? ==> Polled(inputs, r.aborted.value)
    decreases |inputs|
  {
    if |inputs| == 0 then RunOut(t, dir, [], None, None)
    else
      match EvalTickGuarded(cfg, t, dir, inputs[0].names, inputs[0].trace)
      case Err(e) => Stop(t, dir, inputs[0].names, e)
      case Ok(tick) =>
        var rest := Run(cfg, tick.state, tick.dir, inputs[1..]);
        RunOut(rest.state, rest.dir, Made(tick.record) + rest.records, rest.stopped, rest.aborted)
  }

  /** The evaluation loop as the source writes it: the first tick that raises,
      including the one that cannot unpack a missing detection, ends it. */
  function RunAsWritten<P>(cfg: Config, t: TesterState, dir: map<string, P>, inputs: seq<TickInput>): (r: RunOut<P>)
    // an evaluation that raised leaves its step as `curr`; the unpack error
    // happens before any step is taken
    ensures r.aborted.Some? <==> r.stopped.Some? && r.stopped != Some(UnpackNone)
    ensures r.aborted.Some? ==> r.state.curr == r.aborted.value
    ensures r.aborted.Some? ==> Polled(inputs, r.aborted.value)
    decreases |inputs|
  {
    if |inputs| == 0 then RunOut(t, dir, [], None, None)
    else
      match EvalTick(cfg, t, dir, inputs[0].names, inputs[0].trace)
      case Err(e) => Stop(t, dir, inputs[0].names, e)
      case Ok(tick) =>
        var rest := RunAsWritten(cfg, tick.state, tick.dir, inputs[1..]);
        RunOut(rest.state, rest.dir, Made(tick.record) + rest.records, rest.stopped, rest.aborted)
  }

  /** What a successful guarded tick does to the tester and the directory. */
  ghost predicate TickStep<P>(t: TesterState, dir: map<string, P>, tick: Tick<P>) {
    && (tick.record.None? ==> tick.state == t && tick.dir == dir)
    && (tick.record.Some? ==>
          var rec := tick.record.value;
          && rec.step > t.curr && tick.state.curr == rec.step
          && (rec.savedBest <==> Improves(rec.mean, t.best))
          && (rec.savedBest ==> tick.state.best == Some(rec.mean)
                                && Decimal.IntToString(rec.step) in dir
                                && tick.dir == dir[BestName := dir[Decimal.IntToString(rec.step)]])
          && (!rec.savedBest ==> tick.state.best == t.best && tick.dir == dir))
  }

  /** A run that is not empty is its first tick followed by the rest. */
  lemma RunFirstTick<P>(cfg: Config, t: TesterState, dir: map<string, P>, inputs: seq<TickInput>)
    requires |inputs| > 0
    ensures var r := EvalTickGuarded(cfg, t, dir, inputs[0].names, inputs[0].trace);
            && (r.Err? ==> Run(cfg, t, dir, inputs) == Stop(t, dir, inputs[0].names, r.error))
            && (r.Ok? ==> TickStep(t, dir, r.value))
            && (r.Ok? ==>
                  var rest := Run(cfg, r.value.state, r.value.dir, inputs[1..]);
                  Run(cfg, t, dir, inputs) == RunOut(rest.state, rest.dir, Made(r.value.record) + rest.records, rest.stopped, rest.aborted))
  {
  }

  /** Tested steps strictly increase and all come after `curr`; an aborted
      step comes after all of them; `final` is the aborted step if there is
      one, and otherwise the last tested step. */
  ghost predicate MovesForward(curr: int, records: seq<EvalRecord>, aborted: Option<int>, final: int) {
    && (forall i, j :: 0 <= i < j < |records| ==> records[i].step < records[j].step)
    && (forall i :: 0 <= i < |records| ==> records[i].step > curr)
    && (aborted.Some? ==> aborted.value > curr && forall i :: 0 <= i < |records| ==> records[i].step < aborted.value)
    && final == (if aborted.Some? then aborted.value
                 else if |records| == 0 then curr else records[|records| - 1].step)
  }

  lemma MovesForwardCons(t: TesterState, next: TesterState, record: Option<EvalRecord>, rest: seq<EvalRecord>,
                         aborted: Option<int>, final: int)
    requires record.None? ==> next == t
    requires record.Some? ==> record.value.step > t.curr && next.curr == record.value.step
    requires MovesForward(next.curr, rest, aborted, final)
    ensures MovesForward(t.curr, Made(record) + rest, aborted, final)
  {
    var all := Made(record) + rest;
    if record.Some? {
      assert forall i :: 0 < i < |all| ==> all[i] == rest[i - 1];
    } else {
      assert all == rest;
    }
  }

  /** Across a run, `curr_test_step` only moves forward: the tested steps are
      strictly increasing (so no step is tested twice) and all newer than the
      starting `curr`; it ends as the step whose evaluation raised, if one did,
      and otherwise as the last tested step. */
  lemma {:induction false} RunMonotone<P>(cfg: Config, t: TesterState, dir: map<string, P>, inputs: seq<TickInput>)
    ensures var out := Run(cfg, t, dir, inputs);
            MovesForward(t.curr, out.records, out.aborted, out.state.curr)
    decreases |inputs|
  {
    if |inputs| > 0 {
      RunFirstTick(cfg, t, dir, inputs);
      var r := EvalTickGuarded(cfg, t, dir, inputs[0].names, inputs[0].trace);
      if r.Ok? {
        var rest := Run(cfg, r.value.state, r.value.dir, inputs[1..]);
        RunMonotone(cfg, r.value.state, r.value.dir, inputs[1..]);
        MovesForwardCons(t, r.value.state, r.value.record, rest.records, rest.aborted, rest.state.curr);
      }
    }
  }

  /** The source's loop is the corrected loop cut short: its evaluations are a
      prefix of the corrected loop's, and the two are the same run whenever
      the source's loop does not die unpacking a missing detection. */
  lemma {:induction false} AsWrittenIsPrefix<P>(cfg: Config, t: TesterState, dir: map<string, P>,
                                                inputs: seq<TickInput>)
    ensures RunAsWritten(cfg, t, dir, inputs).records <= Run(cfg, t, dir, inputs).records
    ensures RunAsWritten(cfg, t, dir, inputs).stopped != Some(UnpackNone) ==>
              RunAsWritten(cfg, t, dir, inputs) == Run(cfg, t, dir, inputs)
    decreases |inputs|
  {
    if |inputs| > 0 {
      var names := inputs[0].names;
      var trace := inputs[0].trace;
      GuardedAgreesOtherwise(cfg, t, dir, names, trace);
      var w := EvalTick(cfg, t, dir, names, trace);
      if w == Err(UnpackNone) {
        assert RunAsWritten(cfg, t, dir, inputs) == Stop(t, dir, names, UnpackNone);
      } else if w.Err? {
        assert RunAsWritten(cfg, t, dir, inputs) == Stop(t, dir, names, w.error);
        assert Run(cfg, t, dir, inputs) == Stop(t, dir, names, w.error);
      } else {
        var tick := w.value;
        AsWrittenIsPrefix(cfg, tick.state, tick.dir, inputs[1..]);
        var restW := RunAsWritten(cfg, tick.state, tick.dir, inputs[1..]);
        var restG := Run(cfg, tick.state, tick.dir, inputs[1..]);
        assert RunAsWritten(cfg, t, dir, inputs).records == Made(tick.record) + restW.records;
        assert Run(cfg, t, dir, inputs).records == Made(tick.record) + restG.records;
      }
    }
  }

  /** `curr_test_step` moves forward in the source's loop too, up to the tick
      that ends it. */
  lemma {:induction false} AsWrittenMonotone<P>(cfg: Config, t: TesterState, dir: map<string, P>,
                                                inputs: seq<TickInput>)
    ensures var out := RunAsWritten(cfg, t, dir, inputs);
            MovesForward(t.curr, out.records, out.aborted, out.state.curr)
    decreases |inputs|
  {
    if |inputs| > 0 {
      var w := EvalTick(cfg, t, dir, inputs[0].names, inputs[0].trace);
      if w.Ok? {
        var rest := RunAsWritten(cfg, w.value.state, w.value.dir, inputs[1..]);
        assert RunAsWritten(cfg, t, dir, inputs)
            == RunOut(rest.state, rest.dir, Made(w.value.record) + rest.records, rest.stopped, rest.aborted);
        AsWrittenMonotone(cfg, w.value.state, w.value.dir, inputs[1..]);
        MovesForwardCons(t, w.value.state, w.value.record, rest.records, rest.aborted, rest.state.curr);
      }
    }
  }

  /** `final` is the largest of `start` and the means of `records`: an upper
      bound of each, and attained by one of them. */
  ghost predicate IsRunningMax(start: Option<real>, records: seq<EvalRecord>, final: Option<real>) {
    && (forall i :: 0 <= i < |records| ==> AtMost(Some(records[i].mean), final))
    && AtMost(start, final)
    && (final.None? <==> start.None? && |records| == 0)
    && (final.Some? ==> final == start || exists i :: 0 <= i < |records| && records[i].mean == final.value)
  }

  lemma RunningMaxCons(t: TesterState, next: TesterState, record: Option<EvalRecord>, rest: seq<EvalRecord>,
                       final: Option<real>)
    requires record.None? ==> next == t
    requires record.Some? ==> (record.value.savedBest <==> Improves(record.value.mean, t.best))
    requires record.Some? && record.value.savedBest ==> next.best == Some(record.value.mean)
    requires record.Some? && !record.value.savedBest ==> next.best == t.best
    requires IsRunningMax(next.best, rest, final)
    ensures IsRunningMax(t.best, Made(record) + rest, final)
  {
    var all := Made(record) + rest;
    if record.Some? {
      var rec := record.value;
      assert all[0] == rec;
      assert forall i :: 0 < i < |all| ==> all[i] == rest[i - 1];
      if final.Some? && final != t.best && final != next.best {
        var i :| 0 <= i < |rest| && rest[i].mean == final.value;
        assert all[i + 1] == rest[i];
      }
    } else {
      assert all == rest;
    }
  }

  /** Across a run, the best reward is the largest of the starting best and the
      means of all evaluations; in particular it never decreases. */
  lemma {:induction false} RunBestIsMaximum<P>(cfg: Config, t: TesterState, dir: map<string, P>, inputs: seq<TickInput>)
    ensures IsRunningMax(t.best, Run(cfg, t, dir, inputs).records, Run(cfg, t, dir, inputs).state.best)
    decreases |inputs|
  {
    if |inputs| > 0 {
      RunFirstTick(cfg, t, dir, inputs);
      var r := EvalTickGuarded(cfg, t, dir, inputs[0].names, inputs[0].trace);
      if r.Ok? {
        var rest := Run(cfg, r.value.state, r.value.dir, inputs[1..]);
        RunBestIsMaximum(cfg, r.value.state, r.value.dir, inputs[1..]);
        RunningMaxCons(t, r.value.state, r.value.record, rest.records, rest.state.best);
      }
    }
  }

  /** Each evaluation replaced the best model exactly when its mean is at least
      `start` and every earlier evaluation's mean. */
  ghost predicate SavedWhenAtLeastAll(start: Option<real>, records: seq<EvalRecord>) {
    forall i :: 0 <= i < |records| ==>
      (records[i].savedBest <==>
         AtMost(start, Some(records[i].mean)) && forall j :: 0 <= j < i ==> records[j].mean <= records[i].mean)
  }

  /** After an evaluation of mean `mean`, a later mean beats the new best
      exactly when it beats the old best and `mean`. */
  lemma BestAfterRecord(best: Option<real>, next: Option<real>, mean: real, saved: bool, m: real)
    requires saved <==> Improves(mean, best)
    requires saved ==> next == Some(mean)
    requires !saved ==> next == best
    ensures AtMost(next, Some(m)) <==> AtMost(best, Some(m)) && mean <= m
  {
  }

  /** "At most `m`" over the first `i` means of `[rec] + rest` splits into
      `rec` and the first `i - 1` of `rest`. */
  lemma EarlierSplit(rec: EvalRecord, rest: seq<EvalRecord>, i: nat, m: real)
    requires 0 < i <= |rest|
    ensures (forall j :: 0 <= j < i ==> ([rec] + rest)[j].mean <= m)
        <==> rec.mean <= m && forall j :: 0 <= j < i - 1 ==> rest[j].mean <= m
  {
    var all := [rec] + rest;
    if forall j :: 0 <= j < i ==> all[j].mean <= m {
      assert all[0] == rec;
      forall j | 0 <= j < i - 1 ensures rest[j].mean <= m {
        assert all[j + 1] == rest[j];
      }
    }
    if rec.mean <= m && forall j :: 0 <= j < i - 1 ==> rest[j].mean <= m {
      forall j | 0 <= j < i ensures all[j].mean <= m {
        if j > 0 {
          assert all[j] == rest[j - 1];
        }
      }
    }
  }

  lemma SavedWhenAtLeastAllCons(t: TesterState, next: TesterState, record: Option<EvalRecord>, rest: seq<EvalRecord>)
    requires record.None? ==> next == t
    requires record.Some? ==> (record.value.savedBest <==> Improves(record.value.mean, t.best))
    requires record.Some? && record.value.savedBest ==> next.best == Some(record.value.mean)
    requires record.Some? && !record.value.savedBest ==> next.best == t.best
    requires SavedWhenAtLeastAll(next.best, rest)
    ensures SavedWhenAtLeastAll(t.best, Made(record) + rest)
  {
    var all := Made(record) + rest;
    if record.Some? {
      var rec := record.value;
      assert all == [rec] + rest;
      assert all[0] == rec;
      forall i | 0 < i < |all|
        ensures all[i].savedBest <==>
                  AtMost(t.best, Some(all[i].mean)) && forall j :: 0 <= j < i ==> all[j].mean <= all[i].mean
      {
        var m := all[i].mean;
        assert all[i] == rest[i - 1];
        assert rest[i - 1].savedBest <==>
                 AtMost(next.best, Some(m)) && forall j :: 0 <= j < i - 1 ==> rest[j].mean <= m;
        BestAfterRecord(t.best, next.best, rec.mean, rec.savedBest, m);
        EarlierSplit(rec, rest, i, m);
      }
    } else {
      assert all == rest;
    }
  }

  /** Across a run, an evaluation replaces the best model exactly when its mean
      is at least the starting best and every earlier evaluation's mean (ties
      replace). */
  lemma {:induction false} RunSavesRecordMeans<P>(cfg: Config, t: TesterState, dir: map<string, P>,
                                                  inputs: seq<TickInput>)
    ensures SavedWhenAtLeastAll(t.best, Run(cfg, t, dir, inputs).records)
    decreases |inputs|
  {
    if |inputs| > 0 {
      RunFirstTick(cfg, t, dir, inputs);
      var r := EvalTickGuarded(cfg, t, dir, inputs[0].names, inputs[0].trace);
      if r.Ok? {
        var rest := Run(cfg, r.value.state, r.value.dir, inputs[1..]);
        RunSavesRecordMeans(cfg, r.value.state, r.value.dir, inputs[1..]);
        SavedWhenAtLeastAllCons(t, r.value.state, r.value.record, rest.records);
      }
    }
  }

  /** The step of the last evaluation that replaced the best model. */
  function LastSaved(records: seq<EvalRecord>): Option<int>
    decreases |records|
  {
    if |records| == 0 then None
    else if records[|records| - 1].savedBest then Some(records[|records| - 1].step)
    else LastSaved(records[..|records| - 1])
  }

  /** `LastSaved` of one optional record followed by more. */
  lemma {:induction false} LastSavedOfPrefix(first: Option<EvalRecord>, records: seq<EvalRecord>)
    ensures LastSaved(Made(first) + records)
         == if LastSaved(records).Some? then LastSaved(records)
            else if first.Some? && first.value.savedBest then Some(first.value.step)
            else None
    decreases |records|
  {
    var all := Made(first) + records;
    if |records| == 0 {
      assert all == Made(first);
      if first.Some? {
        assert all[..0] == [];
      }
    } else {
      assert all[..|all| - 1] == Made(first) + records[..|records| - 1];
      LastSavedOfPrefix(first, records[..|records| - 1]);
    }
  }

  /** Only the file `best` differs between `dir` and `final`; it holds the
      checkpoint of the last evaluation in `records` that replaced the best
      model, or is as in `dir` when none did. */
  ghost predicate BestFileFollows<P>(dir: map<string, P>, records: seq<EvalRecord>, final: map<string, P>) {
    && (forall name :: name != BestName ==> (name in final <==> name in dir))
    && (forall name :: name != BestName && name in dir ==> final[name] == dir[name])
    && (LastSaved(records).Some? ==>
          var name := Decimal.IntToString(LastSaved(records).value);
          name in dir && BestName in final && final[BestName] == dir[name])
    && (LastSaved(records).None? ==>
          (BestName in final <==> BestName in dir) && (BestName in dir ==> final[BestName] == dir[BestName]))
  }

  lemma BestFileCons<P>(t: TesterState, dir: map<string, P>, tick: Tick<P>, rest: seq<EvalRecord>, final: map<string, P>)
    requires TickStep(t, dir, tick)
    requires BestFileFollows(tick.dir, rest, final)
    ensures BestFileFollows(dir, Made(tick.record) + rest, final)
  {
    LastSavedOfPrefix(tick.record, rest);
    if tick.record.Some? {
      CheckpointNamesListed(tick.record.value.step);
      if LastSaved(rest).Some? {
        CheckpointNamesListed(LastSaved(rest).value);
      }
    }
  }

  /** Across a run, the tester writes no file but `best`, and `best` ends up
      holding the checkpoint of the last evaluation that replaced the best
      model. */
  lemma {:induction false} RunBestFile<P>(cfg: Config, t: TesterState, dir: map<string, P>, inputs: seq<TickInput>)
    ensures BestFileFollows(dir, Run(cfg, t, dir, inputs).records, Run(cfg, t, dir, inputs).dir)
    decreases |inputs|
  {
    if |inputs| > 0 {
      RunFirstTick(cfg, t, dir, inputs);
      var r := EvalTickGuarded(cfg, t, dir, inputs[0].names, inputs[0].trace);
      if r.Ok? {
        var rest := Run(cfg, r.value.state, r.value.dir, inputs[1..]);
        RunBestFile(cfg, r.value.state, r.value.dir, inputs[1..]);
        BestFileCons(t, dir, r.value, rest.records, rest.dir);
      }
    }
  }
}
