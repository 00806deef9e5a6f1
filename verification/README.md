# joyrl model manager and online tester, in Dafny

This project models two pieces of sequential decision logic from the joyrl
reinforcement-learning framework and proves properties of them.

* **The model manager** (`ModelMgr`) keeps the latest policy parameters in an
  insertion-ordered dict `step -> params`, seeded with `{0: initial}`. A put is
  stored only if its step is at least the dict's last key. A put whose step is
  a multiple of `model_save_fre` is also offered to a save queue of capacity
  128. A background drain writes the queued versions to the checkpoint
  directory under the file name `f"{step}"`. Messages are dispatched on their
  tag: PUT, GET, or anything else, which raises.
* **The online tester** (`OnlineTester`) polls the checkpoint directory. It
  keeps the names that are all digits, takes the largest step, and compares it
  with the step it tested last. It evaluates a newer step over
  `online_eval_episode` episodes. An episode is cut off by `terminated`,
  `truncated` or the `max_step` cap. When the mean reward is at least the best
  so far (ties count), the checkpoint is copied to the file `best`.

Modules, one concept each:

| file | module | models |
|---|---|---|
| wrappers.dfy | `Wrappers` | `Option` and `Result` |
| decimal.dfy | `Decimal` | `str.isdigit`, `int(s)` and `f"{n}"` on ASCII decimal names |
| version_store.dfy | `VersionStore` | the insertion-ordered `step -> params` dict |
| model_mgr.dfy | `ModelMgr` | the save queue, `pub_msg`, and the drain into the directory |
| evaluation.dfy | `Evaluation` | the episode loop: cutoff, reward sums, episode count |
| tester.dfy | `Tester` | checkpoint detection and one evaluation tick |
| tester_run.dfy | `TesterRun` | the evaluation loop over many polls and its invariants |

Parameter blobs are a type parameter `P`. The checkpoint directory is a
`map<string, P>`. `os.listdir` is an input sequence of names in any order. The
environment is the sequence of `(reward, terminated, truncated)` outcomes its
`step` calls return. Rewards are exact `real`s. The initial best reward `-inf`
is `None`.

Where the code and the documented design of the system disagree, the model
follows the code:

* On a full save queue the design has the producer wait. The code's
  `while not full: put; sleep; break` enqueues at most once and never waits, so
  the request is dropped (`ModelMgr.Put`, `ModelMgr.QueueKeepsFirstDue`).
* The design has an out-of-order older step stored without becoming the latest.
  The code does not store it at all (`VersionStore.Put`).
* The design has `get` fail on an empty store. The code seeds the dict with
  `{0: initial}`, so `get` always has an answer (`VersionStore.Init`).
* The design says step files are written once. The code queues a repeated
  step again, and the drain overwrites the file; the last write wins
  (`ModelMgr.DrainLastWins`).
* The design has a listing whose newest step is older than the last tested one
  leave the tester waiting. The code returns no value there, and unpacking it
  raises. See "Findings".
* The design has an unreadable checkpoint skipped. In the code, loading a
  missing file raises and ends the evaluation thread (`TickError.CheckpointMissing`).

## Model

| member | source | states |
|---|---|---|
| `Decimal.NatToString` | joyrl/framework/model_mgr.py:79 | the name a non-negative step is saved under is all digits, with no leading zero except in "0" |
| `Decimal.IntToString` | joyrl/framework/model_mgr.py:79 | a negative step is saved under a name that is not all digits; a non-negative one under a canonical digit name |
| `Decimal.ParseOfShow` | joyrl/framework/tester.py:45 | `int()` of the name a step is saved under gives back the step |
| `Decimal.ShowOfParse` | joyrl/framework/tester.py:61 | a canonical listed name, parsed and printed again, is the same name, so the file loaded is the file listed |
| `Decimal.NamesDistinct` | joyrl/framework/model_mgr.py:79 | distinct steps are saved to distinct file names |
| `VersionStore.Init` | joyrl/framework/model_mgr.py:29 | the dict starts as `{0: initial}` and is well formed |
| `VersionStore.LastKey` | joyrl/framework/model_mgr.py:60 | the dict's last key is a stored key and is at least every stored key |
| `VersionStore.Get` | joyrl/framework/model_mgr.py:68-71 | `get` returns the params stored under the largest key |
| `VersionStore.Assign` | joyrl/framework/model_mgr.py:61 | dict assignment: existing keys keep their positions and only a new key is appended; `step` now maps to the params and nothing else changes; assigning a key at least every stored key keeps the dict well formed and makes that key the last |
| `VersionStore.Put` | joyrl/framework/model_mgr.py:59-61 | a smaller step leaves the dict unchanged; an equal step overwrites in place without adding a key; a larger step is appended; keys are never removed; the latest version never regresses |
| `VersionStore.PutAll` | joyrl/framework/model_mgr.py:56-61 | the dict stays well formed over any sequence of puts |
| `VersionStore.LatestIsHighest` | joyrl/framework/model_mgr.py:56-71 | after any puts from the seed, the last key is the largest step put (or 0), and `get` returns the params of the latest put of that step |
| `VersionStore.KeysOnlyGrow` | joyrl/framework/model_mgr.py:60-61 | the key set only grows along any sequence of puts |
| `ModelMgr.Init` | joyrl/framework/model_mgr.py:26-30 | a fresh manager has an empty queue and `get` returns the initial params |
| `ModelMgr.Put` | joyrl/framework/model_mgr.py:56-66 | the dict is updated as `VersionStore.Put`; the request is enqueued exactly when the step is due and the queue is not full, whether or not the dict stored it; otherwise it is dropped; the queue never exceeds 128 |
| `ModelMgr.Get` | joyrl/framework/model_mgr.py:68-71 | `get` returns the params of the largest stored key |
| `ModelMgr.PubMsg` | joyrl/framework/model_mgr.py:44-53 | PUT performs the put and returns nothing; GET returns the latest params and changes nothing; any other tag raises; a PUT without a pair fails to unpack |
| `ModelMgr.PutAll` | joyrl/framework/model_mgr.py:62-66 | over any sequence of puts the queue stays within 128 and holds only due steps |
| `ModelMgr.QueueKeepsFirstDue` | joyrl/framework/model_mgr.py:62-66 | from an empty queue, the queue holds exactly the first 128 due requests in arrival order; later ones are dropped |
| `ModelMgr.LatestAfterPuts` | joyrl/framework/model_mgr.py:56-71 | `get` on the manager depends on the dict alone: it returns the latest put of the largest step whatever the queue holds |
| `ModelMgr.DrainLastWins` | joyrl/framework/model_mgr.py:76-79 | draining writes a file for every queued step; for a repeated step the last-dequeued params win; other files are untouched |
| `ModelMgr.SavePolicy` | joyrl/framework/model_mgr.py:73-80 | one drain pass empties the queue in FIFO order, leaves the dict alone, and adds exactly the queued steps' files to the directory |
| `ModelMgr.SaveIntervalScenario` | joyrl/framework/model_mgr.py:56-71 | with interval 10, puts of 5, 10 and 15 queue only 10, and `get` returns the params of 15 |
| `Evaluation.StepsUntilEnd` | joyrl/framework/tester.py:67-75 | an episode lasts at least one step more than the steps already taken, and never more than the trace holds |
| `Evaluation.FirstCut` | joyrl/framework/tester.py:73-75 | an episode ends at the first step that is terminated, truncated or at the cap, and runs out of trace only when no step ends it |
| `Evaluation.EpisodeBounds` | joyrl/framework/tester.py:73 | every episode has at least one step; with `max_step >= 1` none is longer than `max_step`; `max_step == 0` cuts after one step; a negative `max_step` disables the cap |
| `Evaluation.PassFrom` | joyrl/framework/tester.py:64-75 | a completed pass records one episode length per loop iteration |
| `Evaluation.RunEpisodes` | joyrl/framework/tester.py:63-75 | a completed pass has exactly `online_eval_episode` episodes |
| `Evaluation.PassBounds` | joyrl/framework/tester.py:64-75 | with `max_step >= 1` every episode of a pass lasts between 1 and `max_step` steps |
| `Evaluation.PlayEpisode` | joyrl/framework/tester.py:66-75 | the inner stepping loop returns the episode's length and summed reward, or reports that the trace ran out |
| `Evaluation.EvaluatePass` | joyrl/framework/tester.py:63-75 | the nested loops compute the same pass as the episode-by-episode definition |
| `Tester.ListedSteps` | joyrl/framework/tester.py:44-45 | a step is listed exactly when some all-digit name parses to it; other names are ignored |
| `Tester.MaxOf` | joyrl/framework/tester.py:46 | the last element after sorting is a listed step and at least every listed step |
| `Tester.CheckUpdatedModel` | joyrl/framework/tester.py:43-52 | `(False, -1)` when nothing is listed or the newest step equals `curr_test_step`; `(True, max)` exactly when some listed step is newer, and then only the maximum; no value exactly when every listed step is older |
| `Tester.CheckUpdatedModelGuarded` | joyrl/framework/tester.py:43-52 | the corrected detection always returns a pair; it reports an update exactly when some listed step is newer, and then only the maximum |
| `Tester.Init` | joyrl/framework/tester.py:28-29 | the tester starts with best reward minus infinity (no best yet) and a `curr_test_step` below every listable step, so the first listed checkpoint counts as new |
| `Tester.EvalWith` | joyrl/framework/tester.py:58-81 | on an update the detected step becomes `curr_test_step`; the mean times the episode count is the pass's reward sum; `best` is replaced exactly when the mean is at least the best so far, and the file `best` is written exactly then; the best never decreases; an update is evaluated exactly when its file exists, the episodes finish and the count is not zero; otherwise a missing file, an exhausted environment or a zero count raises |
| `Tester.EvalTick` | joyrl/framework/tester.py:57-82 | a tick dies unpacking a missing detection exactly when every listed step is older than `curr_test_step`; a tested step is the newest listed and strictly newer than the last; a tick is quiet only when no listed step is newer, and then changes nothing; a newer step whose file exists is always evaluated when the episodes finish and the count is not zero; each error has its cause |
| `Tester.EvalTickGuarded` | joyrl/framework/tester.py:57-82 | the corrected tick never dies unpacking; it tests only the newest, strictly newer step; it is quiet only when no listed step is newer; a newer step whose file exists is always evaluated when the episodes finish and the count is not zero; each error has its cause; the file `best` is written exactly when the best is replaced |
| `Tester.GuardedAgreesOtherwise` | joyrl/framework/tester.py:47-58 | the corrected tick equals the source's tick wherever the source does not die, and is quiet where it does |
| `Tester.StaleListingKillsTick` | joyrl/framework/tester.py:51-58 | after step 20 is tested, a listing holding only "10" makes the source's tick raise |
| `Tester.GuardedStaleListingIsQuiet` | joyrl/framework/tester.py:47-52 | with the guard, a listing whose steps are all older changes nothing |
| `Tester.CheckpointNamesListed` | joyrl/framework/tester.py:44-45 | the file the manager saves for a non-negative step is listed as exactly that step; negative steps and `best` are never taken for steps; no step is saved under `best` |
| `Tester.NewestStepScenario` | joyrl/framework/tester.py:43-52 | a listing of 10 and 20 reports only 20; once 20 is tested, a listing adding 30 reports only 30 |
| `TesterRun.Run` | joyrl/framework/tester.py:57-82 | the corrected `while True` loop stops only on an evaluation that raised, never on an unpack error, and then `curr_test_step` holds that evaluation's step, the newest step its poll listed |
| `TesterRun.RunAsWritten` | joyrl/framework/tester.py:57-82 | the source's loop leaves an aborted step exactly when it stops on an evaluation that raised, not on the unpack error; `curr_test_step` then holds that step, the newest step its poll listed |
| `TesterRun.RunMonotone` | joyrl/framework/tester.py:57-60 | across polls the tested steps strictly increase, so none is tested twice; all are newer than the start; `curr_test_step` ends at the step whose evaluation raised, which it was set to before the load, or else at the last tested step |
| `TesterRun.AsWrittenIsPrefix` | joyrl/framework/tester.py:57-60 | the source's loop makes a prefix of the corrected loop's evaluations, and is the same run unless it dies unpacking a missing detection |
| `TesterRun.AsWrittenMonotone` | joyrl/framework/tester.py:57-60 | in the source's loop too, tested steps strictly increase and `curr_test_step` ends at the aborted or the last tested step |
| `TesterRun.RunBestIsMaximum` | joyrl/framework/tester.py:78-81 | across polls the best reward is the maximum of the starting best and all means: it bounds each one, equals one of them, and never decreases |
| `TesterRun.RunSavesRecordMeans` | joyrl/framework/tester.py:78-81 | an evaluation replaces the best exactly when its mean is at least the starting best and every earlier mean, so ties replace |
| `TesterRun.RunBestFile` | joyrl/framework/tester.py:78-81 | across polls the tester writes no file but `best`, and `best` holds the checkpoint of the last evaluation that replaced the best |

## Left out

- Threads and daemons (`_t_start`, `init`), the `time.sleep` intervals, and the Ray queue versus the local queue: the model is sequential, with one queue. `ModelMgr.SavePolicy` is one drain pass over a snapshot. It does not interleave with puts.
- `torch.save` and `torch.load` become writes and reads of a name-to-blob map. `os.listdir` becomes an input list of names.
- `policy.put_model_params` and `policy.get_action`: they do not affect the modelled state.
- Logger calls: the model assumes the Ray logger. joyrl/framework/tester.py:77 and :79 call `self.logger.info.remote` whatever `use_ray` is, while `init` (lines 37-40) calls the local logger's `info` directly. If the local logger's `info` has no `remote` attribute, local mode would raise `AttributeError` at line 77, after `curr_test_step` is set and before the best is updated. The logger class is not part of this model.
- The environment is an input trace of step outcomes. When the trace runs out mid-episode, the model reports `EnvironmentExhausted`. A real environment never runs out, so this outcome is an artefact of the model.
- IEEE floats: rewards are exact reals. Rounding, NaN, and the `-0.0` mean that Python gives for a negative episode count are not modelled.
- `ModelMgr.Put`: `model_save_fre` is a non-zero integer (`SaveInterval`). With zero, Python raises `ZeroDivisionError` after the dict update; that configuration is not modelled.
- Unicode digits accepted by Python's `isdigit`: only ASCII digits are modelled.
- `Tester.MaxOf`: the list sort is not modelled. Only its last element is used, and that is the maximum.
- `TesterRun.Run` uses the corrected tick; `TesterRun.RunAsWritten` is the source's loop. `TesterRun.AsWrittenIsPrefix` proves the source's evaluations are a prefix of the corrected loop's; the best-reward and `best`-file lemmas are stated for the corrected loop only.
- Directory writes by the model manager between polls: each `TesterRun` run starts from one directory and changes only `best`, so a checkpoint that appears later, or is rewritten (`ModelMgr.DrainLastWins`), must already be in the starting directory with its final contents.
- joyrl/framework/trainer.py (actor start-up, remote calls, busy polling, shutdown, timing) and algos/DQN/policy.py (networks, loss, epsilon schedule): both are orchestration or numeric learning code, not part of this model.

## Findings

| source | as written | input that shows it | evidently intended | confidence | as-written member | corrected member |
|---|---|---|---|---|---|---|
| joyrl/framework/tester.py:47-58 | `_check_updated_model` has no branch for a newest step below `curr_test_step` and returns `None`; line 58 unpacks it, raises `TypeError`, and ends the evaluation thread | `curr_test_step = 20`, listing `["10"]` | treat it as "nothing new" and keep polling | medium; not executed | `Tester.StaleListingKillsTick` | `Tester.EvalTickGuarded` |
