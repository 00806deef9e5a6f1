/** The episode loop of the online tester's evaluation pass.

    The environment is modelled as the sequence of outcomes its `step` calls
    return, one after another across all episodes of a pass; `reset` consumes
    nothing.  Rewards are exact reals. */
module Evaluation {
  import opened Wrappers

  /** What one `env.step(action)` reports. */
  datatype StepOutcome = StepOutcome(reward: real, terminated: bool, truncated: bool)

  /** `terminated or truncated or (0 <= max_step <= ep_step)`, tested after the
      `epStep`-th step of an episode.  A negative `max_step` disables the cap. */
  predicate EndsEpisode(o: StepOutcome, epStep: int, maxStep: int) {
    o.terminated || o.truncated || (0 <= maxStep <= epStep)
  }

  /** The number of steps the episode starting at `trace[0]` lasts, given that
      the first `taken` steps did not end it; `None` when the trace runs out
      before the episode ends. */
  function StepsUntilEnd(trace: seq<StepOutcome>, maxStep: int, taken: nat): (r: Option<nat>)
    requires taken <= |trace|
    ensures r.Some? ==> taken < r.value <= |trace|
    decreases |trace| - taken
  {
    if taken == |trace| then None
    else if EndsEpisode(trace[taken], taken + 1, maxStep) then Some(taken + 1)
    else StepsUntilEnd(trace, maxStep, taken + 1)
  }

  /** The episode ends at the FIRST step after `taken` that ends it, and runs
      out of trace only when no remaining step ends it. */
  lemma {:induction false} FirstCut(trace: seq<StepOutcome>, maxStep: int, taken: nat)
    requires taken <= |trace|
    ensures var r := StepsUntilEnd(trace, maxStep, taken);
            && (r.Some? ==> EndsEpisode(trace[r.value - 1], r.value, maxStep))
            && (r.Some? ==> forall j :: taken <= j < r.value - 1 ==> !EndsEpisode(trace[j], j + 1, maxStep))
            && (r.None? ==> forall j :: taken <= j < |trace| ==> !EndsEpisode(trace[j], j + 1, maxStep))
    decreases |trace| - taken
  {
    if taken < |trace| && !EndsEpisode(trace[taken], taken + 1, maxStep) {
      FirstCut(trace, maxStep, taken + 1);
    }
  }

  /** The length of the episode at the head of `trace`: it ends at the first
      step that terminates, truncates or reaches the cap. */
  function EpisodeLength(trace: seq<StepOutcome>, maxStep: int): Option<nat> {
    StepsUntilEnd(trace, maxStep, 0)
  }

  /** Sum of the rewards of a run of steps (`ep_reward += reward`). */
  function Rewards(steps: seq<StepOutcome>): real
    decreases |steps|
  {
    if |steps| == 0 then 0.0 else Rewards(steps[..|steps| - 1]) + steps[|steps| - 1].reward
  }

  /** Result of the episode loop: summed reward and the length of each episode. */
  datatype Pass = Pass(sum: real, lengths: seq<nat>)

  /** The episodes of a pass from position `pos` of the trace on, `left` of
      them still to play, `sum` and `lengths` covering those already played.
      Episodes are played back to back, each starting where the previous one
      stopped.  `None` when the trace runs out first. */
  function PassFrom(trace: seq<StepOutcome>, pos: nat, left: nat, maxStep: int,
                    sum: real, lengths: seq<nat>): (r: Option<Pass>)
    requires pos <= |trace|
    ensures r.Some? ==> |r.value.lengths| == |lengths| + left
    decreases left
  {
    if left == 0 then Some(Pass(sum, lengths))
    else
      match EpisodeLength(trace[pos..], maxStep)
      case None => None
      case Some(n) => PassFrom(trace, pos + n, left - 1, maxStep, sum + Rewards(trace[pos..pos + n]), lengths + [n])
  }

  /** `for _ in range(count)` over the trace, starting from nothing. */
  function RunEpisodes(trace: seq<StepOutcome>, count: nat, maxStep: int): (r: Option<Pass>)
    ensures r.Some? ==> |r.value.lengths| == count
  {
    PassFrom(trace, 0, count, maxStep, 0.0, [])
  }

  /** `online_eval_episode` is a Python `int`: `range` of a negative count is
      empty, as is `range(0)`. */
  function EpisodeCount(episodes: int): nat {
    if episodes <= 0 then 0 else episodes
  }

  /** Every episode lasts at least one step; with a non-negative cap no episode
      lasts longer than `max(max_step, 1)` steps; without a cap an episode ends
      exactly at its first terminated or truncated step. */
  lemma {:induction false} EpisodeBounds(trace: seq<StepOutcome>, maxStep: int)
    ensures EpisodeLength(trace, maxStep).Some? ==> EpisodeLength(trace, maxStep).value >= 1
    ensures maxStep >= 1 && |trace| >= maxStep ==>
              EpisodeLength(trace, maxStep).Some? && EpisodeLength(trace, maxStep).value <= maxStep
    ensures maxStep == 0 && |trace| > 0 ==> EpisodeLength(trace, maxStep) == Some(1)
    ensures maxStep < 0 ==> forall n :: EpisodeLength(trace, maxStep) == Some(n) ==>
              (trace[n - 1].terminated || trace[n - 1].truncated)
  {
    var r := EpisodeLength(trace, maxStep);
    FirstCut(trace, maxStep, 0);
    if maxStep >= 1 && |trace| >= maxStep {
      if r.None? {
        assert EndsEpisode(trace[maxStep - 1], maxStep, maxStep);
      } else if r.value > maxStep {
        assert EndsEpisode(trace[maxStep - 1], maxStep, maxStep);
      }
    }
    if maxStep == 0 && |trace| > 0 {
      assert EndsEpisode(trace[0], 1, maxStep);
    }
  }

  /** With a cap `max_step >= 1` every episode of a pass lasts between one and
      `max_step` steps. */
  lemma {:induction false} PassBounds(trace: seq<StepOutcome>, pos: nat, left: nat, maxStep: int,
                                      sum: real, lengths: seq<nat>)
    requires pos <= |trace| && maxStep >= 1
    requires forall i :: 0 <= i < |lengths| ==> 1 <= lengths[i] <= maxStep
    ensures PassFrom(trace, pos, left, maxStep, sum, lengths).Some? ==>
              var ls := PassFrom(trace, pos, left, maxStep, sum, lengths).value.lengths;
              forall i :: 0 <= i < |ls| ==> 1 <= ls[i] <= maxStep
    decreases left
  {
    if left > 0 {
      var e := EpisodeLength(trace[pos..], maxStep);
      EpisodeBounds(trace[pos..], maxStep);
      if e.Some? {
        var n := e.value;
        if |trace[pos..]| < maxStep {
          assert n <= |trace[pos..]|;
        }
        assert 1 <= n <= maxStep;
        var lengths' := lengths + [n];
        assert forall i :: 0 <= i < |lengths'| ==> 1 <= lengths'[i] <= maxStep by {
          forall i | 0 <= i < |lengths'| ensures 1 <= lengths'[i] <= maxStep {
            if i < |lengths| {
              assert lengths'[i] == lengths[i];
            }
          }
        }
        NextEpisode(trace, pos, left, maxStep, sum, lengths, n);
        PassBounds(trace, pos + n, left - 1, maxStep, sum + Rewards(trace[pos..pos + n]), lengths');
      }
    }
  }

  /** The inner `while True` loop: step until the episode ends, summing rewards.
      `None` when the trace runs out first. */
  method PlayEpisode(trace: seq<StepOutcome>, maxStep: int) returns (ended: bool, epReward: real, epStep: nat)
    ensures ended <==> EpisodeLength(trace, maxStep).Some?
    ensures ended ==> EpisodeLength(trace, maxStep) == Some(epStep) && epStep <= |trace|
                      && epReward == Rewards(trace[..epStep])
  {
    epReward := 0.0;
    epStep := 0;
    while true
      invariant 0 <= epStep <= |trace|
      invariant EpisodeLength(trace, maxStep) == StepsUntilEnd(trace, maxStep, epStep)
      invariant epReward == Rewards(trace[..epStep])
      decreases |trace| - epStep
    {
      if epStep == |trace| {
        return false, epReward, epStep;
      }
      var o := trace[epStep];
      assert trace[..epStep + 1] == trace[..epStep] + [o];
      epReward := epReward + o.reward;
      epStep := epStep + 1;
      if EndsEpisode(o, epStep, maxStep) {
        return true, epReward, epStep;
      }
    }
  }

  /** A pass with episodes left to play is its next episode followed by the rest. */
  lemma NextEpisode(trace: seq<StepOutcome>, pos: nat, left: nat, maxStep: int,
                    sum: real, lengths: seq<nat>, n: nat)
    requires pos <= |trace| && left > 0 && EpisodeLength(trace[pos..], maxStep) == Some(n)
    ensures pos + n <= |trace|
    ensures PassFrom(trace, pos, left, maxStep, sum, lengths)
         == PassFrom(trace, pos + n, left - 1, maxStep, sum + Rewards(trace[pos..pos + n]), lengths + [n])
  {
  }

  /** The outer `for` loop over `count` episodes, played back to back. */
  method EvaluatePass(trace: seq<StepOutcome>, count: nat, maxStep: int) returns (r: Option<Pass>)
    ensures r == RunEpisodes(trace, count, maxStep)
    ensures r.Some? ==> |r.value.lengths| == count
  {
    var pos: nat := 0;
    var sum := 0.0;
    var lengths: seq<nat> := [];
    var left: nat := count;
    while left > 0
      invariant 0 <= pos <= |trace|
      invariant PassFrom(trace, pos, left, maxStep, sum, lengths) == RunEpisodes(trace, count, maxStep)
      decreases left
    {
      var ended, epReward, epStep := PlayEpisode(trace[pos..], maxStep);
      if !ended {
        return None;
      }
      assert trace[pos..][..epStep] == trace[pos..pos + epStep];
      NextEpisode(trace, pos, left, maxStep, sum, lengths, epStep);
      sum := sum + epReward;
      lengths := lengths + [epStep];
      pos := pos + epStep;
      left := left - 1;
    }
    r := Some(Pass(sum, lengths));
  }
}
