# Single-junction observation layer of LLM-Assisted-Light, in Dafny

LLM-Assisted-Light controls the traffic light of one junction in a SUMO
simulation. It can use a language-model agent, a reinforcement-learning
policy or one of two classic rules. Every controller sees the junction through
the same observation layer, and this project models that layer:

- the occupancy buffer (`OccupancyList`), which records one vector per
  simulator substep and reduces them to their mean divided by 100;
- the gated `step`, which keeps advancing the simulator until it may act;
- the history window (`deque(maxlen=max_states)`) and its read-out
  (`get_state`);
- the detector-fault overlay (`set_occ_missing`, `get_detector_state`) and
  the read-time masks that depend on it;
- the per-phase aggregations (`info_wrapper`, `calculate_queue_lengths`);
- the static-topology conversion (`convert_state_to_static_information`);
- the queue-length projection (`predict_queue_length`) and the
  green/red dispatch of `predict_future_scene`.

It also models the small deterministic rules built on top of the layer:

- top-k selection, per-phase lane totals and the emergency comparison used
  for junction similarity;
- the `prompts` decorator and the available-actions text of the agent tools;
- the fixed-time and SOTL controller rules;
- the decision-parse fallback, the controller schedule and the perturbation
  windows of the two LLM experiment loops.

Modelling choices:

- Python's dynamic values are a `PyValue` datatype (module `PyValues`). This
  lets the type checks of `add_element` be modelled.
- Python exceptions are `Result` failures carrying a `PyError`.
- A Python dict is an insertion-ordered list of entries with distinct keys
  (module `PyDict`).
- Occupancies are `real`. The text `f"{v*100}%"` is kept abstract as
  `Percent(v)`, and the sentinel `"-1"` is `Missing`.
- The simulator's substeps are an input sequence.
- The Poisson draws are a stream `(position, rate) -> nat` handed in as a
  parameter.
- The helper `find_index` is imported by the base wrapper but defined in no
  file of the repository. It is modelled as "first position of the key, or
  None" (`History.FindIndex`).

Module map:

| file | module | source |
|---|---|---|
| wrappers.dfy | `Wrappers` | Option, Result, the Python exception kinds |
| seqs.dfy, text.dfy, pydict.dfy, pyvalues.dfy | `Seqs`, `Text`, `PyDict`, `PyValues` | sums, string helpers, `int()` on text, dicts, truthiness |
| occupancy.dfy | `Occupancy` | `OccupancyList` (both copies) |
| history.dfy | `History` | the history window and `get_state` |
| detector.dfy | `Detector` | `ls_elements`, `set_occ_missing`, `get_detector_state` |
| basewrapper.dfy | `BaseWrapper` | `BaseTSCEnvWrapper` |
| queues.dfy | `QueueStats` | `calculate_queue_lengths`, `predict_queue_length` |
| staticinfo.dfy | `StaticInfo` | `convert_state_to_static_information` |
| envwrapper.dfy | `EnvWrapper` | `TSCEnvWrapper` |
| similarity.dfy | `Similarity` | `find_min_indices`, `get_statistic_info`, `check_emergency` |
| tools.dfy | `AgentTools` | `prompts`, `GetAvailableActions.inference` |
| fixtime.dfy, sotl.dfy | `FixTime`, `Sotl` | the two classic controllers |
| perturbation.dfy, llmloop.dfy, llmrlloop.dfy | `Perturbation`, `LlmLoop`, `LlmRlLoop` | the experiment loops of `llm.py` and `llm_rl.py` |

## Model

| member | source | states |
|---|---|---|
| Occupancy.AddElement | TSCEnvironment/base_tsc_wrapper.py:23-30 | A non-list is a TypeError, and a list holding anything but floats is a ValueError. Otherwise the buffer grows by exactly that vector and keeps its old rows. The empty list is accepted. |
| Occupancy.CalculateAverage | TSCEnvironment/base_tsc_wrapper.py:35-41 | Each entry is its column's sum divided by (row count × 100), and the buffer comes back empty. A ragged buffer is a ValueError. |
| Occupancy.AverageIsFraction | TSCEnvironment/wrapper_utils.py:27-33 | Readings within [0, 100] average to fractions within [0, 1]. This is the duplicated class in wrapper_utils, which the same module models. |
| Occupancy.AverageOfRepeatedRow | TSCEnvironment/base_tsc_wrapper.py:35-41 | A buffer of k copies of one vector averages to that vector divided by 100, independent of k. |
| Occupancy.AverageExample | TSCEnvironment/wrapper_utils.py:27-33 | Substeps [10, 20] and [30, 40] average to [0.2, 0.3]. |
| Occupancy.RecordAll | TSCEnvironment/base_tsc_wrapper.py:161-167 | Recording valid vectors one by one keeps exactly those vectors, in order. |
| Occupancy.RecordEachFloats | TSCEnvironment/base_tsc_wrapper.py:23-30 | Recording a run of values succeeds exactly when each is a list of floats, and then the buffer grows by one row per value. |
| History.InitialRow | TSCEnvironment/base_tsc_wrapper.py:64-66 | The initial row has twelve entries. |
| History.Initial | TSCEnvironment/base_tsc_wrapper.py:51-57 | The window starts as `max_states` initial rows, with bound `max_states`. A negative `max_states` is a ValueError, as `deque` rejects a negative `maxlen`. |
| History.Append | TSCEnvironment/base_tsc_wrapper.py:153 | Appending keeps the bound. A full window keeps its length, drops its oldest row and puts the new row last. |
| History.AppendAllKeepsNewest | TSCEnvironment/base_tsc_wrapper.py:57 | A full window stays full and holds exactly the newest `max_states` rows ever appended, oldest first. |
| History.InitialRowsEvicted | TSCEnvironment/base_tsc_wrapper.py:57-66 | After `max_states` appends, no initial zero row is left. |
| History.FindIndex | TSCEnvironment/base_tsc_wrapper.py:71 | Returns the first position of the faulted movement. It is None when there is no fault or the movement is unknown. |
| History.GetState | TSCEnvironment/base_tsc_wrapper.py:68-75 | Every row's cell at the faulted movement's column is -1 and every other cell is unchanged. With no index, the window is returned as it is. A ragged window is a ValueError, and a column past the width is an IndexError. |
| History.GetStateIdempotent | TSCEnvironment/base_tsc_wrapper.py:72-74 | Reading a masked window under the same fault changes nothing. |
| Detector.LsElements | TSCEnvironment/base_tsc_wrapper.py:147 | Holds exactly the movements ending in "--l" or "--s". |
| Detector.LsElementsConcat | TSCEnvironment/base_tsc_wrapper.py:147 | Filtering distributes over concatenation, so the detector movements keep their movement order. |
| Detector.LsElementsSingle | TSCEnvironment/base_tsc_wrapper.py:147 | One movement is kept exactly when it carries a detector. |
| Detector.SetOccMissing | TSCEnvironment/base_tsc_wrapper.py:293-298 | The mask has one entry per detector. An entry is 'Not Work' exactly when its movement equals the argument. |
| Detector.ResetFaults | TSCEnvironment/base_tsc_wrapper.py:148-149 | After reset every detector works and nothing is faulted. |
| Detector.DetectorStateAfterFault | TSCEnvironment/base_tsc_wrapper.py:273-279 | The status read back pairs detectors with the mask position by position. Only the faulted movement reads 'Not Work', and unknown movements are absent. |
| Detector.GetDetectorState | TSCEnvironment/base_tsc_wrapper.py:273-279 | The keys are exactly the detectors zipped with a mask entry. A detector that does not recur later in the zipped part reads its own mask entry. |
| Detector.ClearingFaultRestoresReset | TSCEnvironment/base_tsc_wrapper.py:297 | Passing None or '' gives the all-working mask of reset. |
| BaseWrapper.TransformOccData | TSCEnvironment/base_tsc_wrapper.py:202-211 | The keys are exactly the zipped movement ids that contain no 'r' anywhere. |
| BaseWrapper.TransformOccDataValues | TSCEnvironment/base_tsc_wrapper.py:204-210 | With distinct ids, a movement whose detector is 'Not Work' maps to "-1" and every other reported movement maps to its own reading. |
| BaseWrapper.TransformOccDataMasksFault | TSCEnvironment/base_tsc_wrapper.py:203-210 | After `set_occ_missing(k)`, a movement reads "-1" exactly when it is k and carries a detector. |
| BaseWrapper.TransformOccDataMissing | TSCEnvironment/base_tsc_wrapper.py:203-210 | A reported movement reads "-1" exactly when its status is 'Not Work', a missing status counting as working. |
| BaseWrapper.TransformOccDataKeys | TSCEnvironment/base_tsc_wrapper.py:202-206 | The keys do not depend on the detector status. |
| BaseWrapper.GetCurrentOccupancy | TSCEnvironment/base_tsc_wrapper.py:239-242 | The keys are exactly the zipped movements without 'r'. Under the environment invariant an entry is "-1" exactly for the faulted movement when it carries a detector. |
| BaseWrapper.MovementOcc | TSCEnvironment/base_tsc_wrapper.py:114-116 | Has the zip's keys. The faulted movement is overwritten with -1 and every other entry is unchanged. |
| PyDict.FromZipGet | TSCEnvironment/base_tsc_wrapper.py:114 | A dict built from `zip(keys, values)` with distinct keys maps each key to the value at its position. |
| PyDict.FromZipLatest | TSCEnvironment/base_tsc_wrapper.py:114 | Later pairs overwrite earlier ones: a key that does not recur later in the zipped part maps to the value at its own position. |
| BaseWrapper.LookupAll | TSCEnvironment/base_tsc_wrapper.py:119 | Succeeds exactly when every movement is known, giving their values in order. Otherwise it is a KeyError. |
| BaseWrapper.PhaseOcc | TSCEnvironment/base_tsc_wrapper.py:117-119 | Each phase, in order, gets the sum of its movements' values. It is a KeyError when some movement is unknown. |
| BaseWrapper.InfoWrapper | TSCEnvironment/base_tsc_wrapper.py:108-122 | The per-phase dict has exactly the keys of `phase2movements`. |
| BaseWrapper.InfoWrapperSums | TSCEnvironment/base_tsc_wrapper.py:114-121 | It fails exactly when some phase names an unknown movement. Otherwise each phase's value is the sum of its movements' readings, with the faulted movement counted as -1. |
| BaseWrapper.RewardNonPositive | TSCEnvironment/base_tsc_wrapper.py:100-106 | The reward is minus the total waiting time. It is never positive, and it is 0 exactly when no vehicle has waited. |
| Seqs.SumZeroIff | TSCEnvironment/base_tsc_wrapper.py:103-106 | A sum of non-negative terms is 0 exactly when every term is 0. |
| BaseWrapper.GetAvailableActions | TSCEnvironment/base_tsc_wrapper.py:217-221 | Returns one 'Phase-i' label per phase, in order. |
| BaseWrapper.CurrentPhaseIsAvailable | TSCEnvironment/base_tsc_wrapper.py:220-227 | The current-phase label is available exactly when its index is in [0, phase_num). The labels are distinct. |
| BaseWrapper.GetCurrentPhase | TSCEnvironment/base_tsc_wrapper.py:223-227 | The label is "Phase-" followed by text that `int()` parses back to the phase index. |
| BaseWrapper.RescueCount | TSCEnvironment/base_tsc_wrapper.py:250-252 | Counts the vehicle ids containing 'rescue'. The count is zero exactly when no id contains it. |
| BaseWrapper.RescueCountSingle | TSCEnvironment/base_tsc_wrapper.py:250-252 | One vehicle counts 1 when its id contains 'rescue' and 0 otherwise. |
| BaseWrapper.RescueCountConcat | TSCEnvironment/base_tsc_wrapper.py:250-252 | The count of two runs of vehicles is the sum of their counts, so every rescue vehicle is counted once. |
| BaseWrapper.GetRescueMovementIds | TSCEnvironment/base_tsc_wrapper.py:244-257 | Returns None exactly when no zipped movement has a rescue vehicle. Otherwise the list is non-empty, holds only movements with a rescue vehicle, and holds every such movement. Its contents are the rescue list, with one copy per rescue vehicle (see `RescueListSingle`, `RescueListConcat`). |
| BaseWrapper.RescueListMembers | TSCEnvironment/base_tsc_wrapper.py:244-257 | A movement is in the list exactly when some zipped position names it and has a rescue vehicle. The list is empty exactly when no such position exists. |
| BaseWrapper.RescueListSingle | TSCEnvironment/base_tsc_wrapper.py:248-252 | One movement contributes one copy of its id per rescue vehicle on it. |
| BaseWrapper.RescueListConcat | TSCEnvironment/base_tsc_wrapper.py:248-252 | The list over two runs of movements is the list over the first followed by the list over the second, so movement order is kept. |
| BaseWrapper.Reset | TSCEnvironment/base_tsc_wrapper.py:137-157 | Stores the phase count, movement ids and phase table. `ls_elements` is the detector movements, the mask is all working with no fault, and the average row is the initial row. The reset occupancy is appended to the window and ends up last. The read-out is the unmasked window, and a ragged window is a ValueError. The result keeps the environment invariant. |
| BaseWrapper.SetOccMissingOn | TSCEnvironment/base_tsc_wrapper.py:293-298 | Only the fault overlay changes, and it records the argument. The invariant is kept, the current read-out keeps its keys, and a read-out entry is "-1" exactly when it is the faulted movement and carries a detector. |
| BaseWrapper.RecordedRows | TSCEnvironment/base_tsc_wrapper.py:161-167 | Holds one buffered row per recorded substep, equal to that substep's list. |
| BaseWrapper.Step | TSCEnvironment/base_tsc_wrapper.py:159-181 | As corrected (see Findings). It stops at the first ready substep, records every substep exactly once, appends exactly one averaged row and empties the buffer. A Stalled run had no ready substep. A Raised run either met a non-float vector (ValueError for a list, TypeError otherwise) or reached the first ready substep and failed to conclude. It steps exactly when some stopping point completes (`StepCompletes`), and then the result keeps the environment invariant. The phase count, movement ids, phase table, detector list and faults are unchanged. |
| BaseWrapper.Gate | TSCEnvironment/base_tsc_wrapper.py:160-167 | As corrected (see Findings). The gating loop stops at the first substep that can act, having recorded every substep up to it once and sent `{tls_id: action}` each time. It raises at the first non-float vector, ValueError for a list and TypeError otherwise, after recording every earlier substep. |
| BaseWrapper.Conclude | TSCEnvironment/base_tsc_wrapper.py:169-181 | After the loop it succeeds exactly when averaging the buffer, summing the phases of the average and reading out the extended window all succeed. On success the window gains the average, the buffer is emptied, and the reward and phase index come from the final substep. Every other field of the environment is unchanged. |
| BaseWrapper.SubstepActionsAsWritten | TSCEnvironment/base_tsc_wrapper.py:160-163 | As written, the argument of substep j wraps the action in j + 1 junction dictionaries. |
| BaseWrapper.SubstepActionsAsWrittenNest | TSCEnvironment/base_tsc_wrapper.py:162 | The second substep receives `{tls: {tls: action}}`. |
| BaseWrapper.SubstepActions | TSCEnvironment/base_tsc_wrapper.py:160-163 | As corrected, every substep receives one junction dictionary holding the action. |
| BaseWrapper.SubstepActionsAgreeOnFirst | TSCEnvironment/base_tsc_wrapper.py:160-163 | The written and corrected arguments agree on the first substep and differ on every later one. |
| QueueStats.JamLength | TSCEnvironment/wrapper_utils.py:103-106 | '--' is rewritten to '_' and the first match's jam length is returned. An absent movement is a ValueError. |
| QueueStats.PhaseLengths | TSCEnvironment/wrapper_utils.py:103-106 | Succeeds exactly when every movement resolves, giving the lengths in order. |
| QueueStats.PhaseQueueMeaning | TSCEnvironment/wrapper_utils.py:93-114 | `count` is the number of movements and `total_length` their sum. `max_length` is ≥ 0, ≥ every length, and either 0 or one of them. `average_length` is total/count when count > 0, else 0. |
| QueueStats.QueueLengthsOf | TSCEnvironment/wrapper_utils.py:102-109 | Gives one entry per phase, in order, each the accumulated statistics of its movements. |
| QueueStats.CalculateQueueLengths | TSCEnvironment/wrapper_utils.py:90-116 | The keys are exactly the phase keys, and each `count` equals the phase's movement count. It fails exactly when some movement does not resolve. On success each phase's entry holds its movements' accumulated statistics (`QueueEntries`). |
| QueueStats.EmptyQueuesExample | TSCEnvironment/wrapper_utils.py:83-88 | With no queued movement, every phase reports zero total, maximum and average lengths. |
| QueueStats.PredictEntries | TSCEnvironment/wrapper_utils.py:119-144 | It fails only by ZeroDivisionError with zero samples. On success the output is the reference projection of the projected entries (`ProjectsAs`): the i-th becomes max(q + sum·6/num_samples, 0) with its samples drawn from its own stretch of the stream, and the stream ends after the last stretch. |
| QueueStats.PredictEntriesFails | TSCEnvironment/wrapper_utils.py:119-144 | It fails exactly when there are zero samples and some key is projected. |
| QueueStats.PredictEntriesKeys | TSCEnvironment/wrapper_utils.py:122-135 | The output keys are exactly the input's projected keys. |
| QueueStats.PredictEntriesShape | TSCEnvironment/wrapper_utils.py:122-135 | The output keys are exactly the input's 'max_length' and 'average_length' keys, in order. Every projected value is ≥ 0. |
| QueueStats.RedNeverShrinks | TSCEnvironment/wrapper_utils.py:137-143 | Under red the sample sum is ≥ 0, so the projection is never below the current length. |
| QueueStats.SampleSumAsDraws | TSCEnvironment/wrapper_utils.py:130-143 | n samples sum to the total of the arrival draws at positions start, start + stride, … minus, under green, the total of the departure draws at start + 1, start + 3, …. |
| QueueStats.StreamPositionsDisjoint | TSCEnvironment/wrapper_utils.py:130-143 | The arrival positions increase and stay within the key's stretch. Under green the departure positions increase, stay within the stretch and never coincide with an arrival position, so no draw is used twice. |
| QueueStats.MeanSampleSum | TSCEnvironment/wrapper_utils.py:131-141 | When every draw equals its rate, n samples sum to n·(rate − 4) under green and n·rate under red. |
| QueueStats.GreenBelowRedAtMean | TSCEnvironment/wrapper_utils.py:130-143 | At the mean, the green projection of the average queue is max(0, q − 12), the red one is q + 12, and green ≤ red. |
| StaticInfo.DirectionOf | TSCEnvironment/wrapper_utils.py:191-196 | Only 'l' ("Left Turn") and 's' ("Through") are reported. |
| StaticInfo.MovementEntriesMembers | TSCEnvironment/wrapper_utils.py:190-203 | The movement infos are exactly the 'l'/'s' entries, converted. |
| StaticInfo.MovementEntriesDistinct | TSCEnvironment/wrapper_utils.py:190-203 | Distinct movement ids give distinct keys. |
| StaticInfo.MovementEntriesMeaning | TSCEnvironment/wrapper_utils.py:190-203 | An 'l'/'s' movement maps to its direction text and lane count, which defaults to 0. Every other movement is absent. |
| StaticInfo.PhaseEntries | TSCEnvironment/wrapper_utils.py:206-210 | Phase p becomes "Phase p". Its movement list keeps its order and length, with '--' rewritten to '_'. |
| StaticInfo.PhaseKeysDistinct | TSCEnvironment/wrapper_utils.py:206-208 | Distinct phases get distinct keys, so no phase overwrites another. |
| StaticInfo.ConvertStateToStaticInformation | TSCEnvironment/wrapper_utils.py:184-212 | Combines both parts: only 'l'/'s' movements, with lanes defaulting to 0, and every phase as "Phase p" with its rewritten movements. |
| StaticInfo.MovementInfosExample | TSCEnvironment/wrapper_utils.py:190-203 | "E2_r" is dropped. "E2_s" has 2 lanes, and "E2_l" has no lane entry, so it gets 0. |
| StaticInfo.PhaseInfosExample | TSCEnvironment/wrapper_utils.py:206-210 | Phase 0 ["E2--s", "E1--s"] becomes "Phase 0" ["E2_s", "E1_s"]. |
| Similarity.FindMinIndices | utils/junction_similarity.py:12-22 | Returns min(n, len) distinct, valid indices (Python's negative slice included). The values are non-decreasing, ties keep index order, and every unselected value is ≥ every selected one. |
| Similarity.StableOrderUnique | utils/junction_similarity.py:17 | Two stably sorted orderings of the same positions are equal. |
| Similarity.FindMinIndicesIsStablePrefix | utils/junction_similarity.py:14-20 | The result is the first min(n, len) positions of the stable order by value. |
| Similarity.FindMinIndicesExample | utils/junction_similarity.py:12-22 | [0.5, 0.2, 0.5, 0.1] with n = 3 selects [3, 1, 0]. |
| Similarity.LaneCounts | utils/junction_similarity.py:62-65 | Gives each movement's lane count in order. An unknown movement is a KeyError. |
| Similarity.GetStatisticInfo | utils/junction_similarity.py:59-68 | Gives one total per phase, in phase order, each the sum of its movements' lane counts. A missing movement is a KeyError. |
| Similarity.UniformLanes | utils/junction_similarity.py:59-68 | When every movement has l lanes, each phase's total is its movement count × l. |
| Similarity.CheckEmergency | utils/junction_similarity.py:163-171 | Returns 0 exactly when both values are truthy or both are falsy, and 1 otherwise. |
| EnvWrapper.TransformOccData | TSCEnvironment/tsc_env_wrapper.py:52-57 | The keys are exactly the zipped ids containing no 'r'. Every value is a formatted reading. |
| EnvWrapper.TransformOccDataInOrder | TSCEnvironment/tsc_env_wrapper.py:52-57 | With distinct ids, the entries are exactly the reported ids, in order, each paired with its own reading. |
| EnvWrapper.TransformOccDataAsBase | TSCEnvironment/tsc_env_wrapper.py:52-57 | Equals the base wrapper's read-out with no detector status. |
| EnvWrapper.Initial | TSCEnvironment/tsc_env_wrapper.py:31-41 | Before reset, the state, the last state and the phase count are None. |
| EnvWrapper.Reset | TSCEnvironment/tsc_env_wrapper.py:67-77 | phase_num is the number of `phase2movements` entries, the movement ids are the reported ones, the static information is the converted junction description, and the state is the transformed reset occupancy. The last state and the buffer are unchanged. |
| EnvWrapper.OccupancyAfterFirstReset | TSCEnvironment/tsc_env_wrapper.py:110-114 | After the first reset the current occupancy is the transformed reset occupancy, and there is no previous one. |
| EnvWrapper.Step | TSCEnvironment/tsc_env_wrapper.py:80-94 | It stops at the first ready substep and records every substep's occupancy before averaging. It steps exactly when some stopping point completes (`Completes`). The observation is then the transformed average, the previous observation becomes `get_previous_occupancy`, the buffer is emptied and `dones` is the last substep's. A Raised run met a non-float vector, a ragged buffer (ValueError) or a missing reset (TypeError). |
| EnvWrapper.Gather | TSCEnvironment/tsc_env_wrapper.py:83-88 | The loop stops at the first ready substep with every occupancy up to it recorded. It raises at the first non-float vector (ValueError for a list, TypeError otherwise). It runs out only when no substep is ready. |
| EnvWrapper.GetAvailableActions | TSCEnvironment/tsc_env_wrapper.py:104-108 | Returns [0, …, phase_num − 1]. Before any reset it is a TypeError. |
| EnvWrapper.Truncate | TSCEnvironment/tsc_env_wrapper.py:120 | `int()` on a float truncates toward zero. |
| EnvWrapper.IntOf | TSCEnvironment/tsc_env_wrapper.py:119-122 | An int converts to itself and a string converts as Python parses it. None and lists raise. |
| EnvWrapper.PredictFutureSceneAsWritten | TSCEnvironment/tsc_env_wrapper.py:116-132 | As written: a non-integer phase index is a ValueError. A non-empty observation is a TypeError. |
| EnvWrapper.PredictFutureSceneAsWrittenFails | TSCEnvironment/tsc_env_wrapper.py:124-125 | After any reset that reports a movement, the written prediction fails for every integer phase index. |
| EnvWrapper.PredictInfo | TSCEnvironment/tsc_env_wrapper.py:128-130 | One call with ten samples never fails and consumes 20 (red) or 40 (green) draws. |
| EnvWrapper.QueueInfoProjected | TSCEnvironment/wrapper_utils.py:119-144 | On a phase's four queue entries, only 'max_length' and 'average_length' are projected, in that order. 'max_length' uses arrival rate 3 from the starting draw; 'average_length' uses rate 2 from where the ten 'max_length' samples stop. |
| EnvWrapper.PredictPhases | TSCEnvironment/tsc_env_wrapper.py:126-131 | Exactly the phase at enumeration position `phase_index` is projected green and every other phase red, in order. |
| EnvWrapper.PredictInfoAtMean | TSCEnvironment/tsc_env_wrapper.py:126-131 | At the mean, green shrinks max/average by 6/12 (floored at 0) and red grows them by 18/12. |
| EnvWrapper.PredictJunctions | TSCEnvironment/tsc_env_wrapper.py:124-131 | Gives one projected table per junction, in order. |
| EnvWrapper.PredictFutureScene | TSCEnvironment/tsc_env_wrapper.py:116-132 | As corrected, it fails (ValueError) exactly when `int()` rejects the index. The junction keys are exactly the table's junctions that have a phase, in table order, because the nested defaultdict creates a junction only when a phase is stored. A junction's projection is present exactly when it has a phase. Each projection keeps the phase keys, and each phase holds its green/red projection. |
| EnvWrapper.PredictJunctionsKeys | TSCEnvironment/tsc_env_wrapper.py:123-132 | After the defaultdict conversion, the junction keys are the table's junctions with at least one phase, in order. |
| EnvWrapper.PredictJunctionsPresent | TSCEnvironment/tsc_env_wrapper.py:123-132 | For every junction of the table (`ScenePredicted`), the projection keeps the junction's phase keys in order, and each phase holds its own projection, drawn from where the earlier junctions leave the stream. The projection is in the result exactly when the junction has a phase. |
| EnvWrapper.DropEmptyValid | TSCEnvironment/tsc_env_wrapper.py:123-132 | Omitting the junctions without phases keeps the junction keys distinct. |
| AgentTools.Prompts | TSCAgent/custom_tools.py:13-19 | Returns the same function object with `.name` and `.description` set. Every other attribute is unchanged. |
| AgentTools.PromptsOverrides | TSCAgent/custom_tools.py:13-19 | Decorating twice keeps only the second labels. |
| AgentTools.Inference | TSCAgent/custom_tools.py:28-37 | The output starts with the prefix, ends with the suffix, and is prefix + suffix when there are no actions. |
| AgentTools.LinesConcat | TSCAgent/custom_tools.py:31-32 | The lines of two runs of actions are the lines of each, in order. |
| AgentTools.LineOfAction | TSCAgent/custom_tools.py:29-34 | Action a's line sits right after the prefix and the lines of the actions before it. |
| FixTime.Decide | ConventionalMethods/fix_time.py:59-64 | Switches (action 0, clock restarted) exactly when 30 s have passed. Otherwise it keeps (action 1) and the clock is unchanged. |
| FixTime.SwitchSpacing | ConventionalMethods/fix_time.py:54-64 | With non-decreasing times, no switch happens before time 30 and any two switches are at least 30 apart. |
| FixTime.TraceExample | ConventionalMethods/fix_time.py:54-64 | Steps every 10 s from 10 to 70 switch at 30 and 60 only. |
| Sotl.PyMod | ConventionalMethods/sotl.py:59 | Python's remainder takes the sign of the divisor. |
| Sotl.NextPhase | ConventionalMethods/sotl.py:59 | Returns (this + 1) mod phase_num, within [0, phase_num), wrapping the last phase to 0. Zero phases divide by zero. |
| Sotl.Occupancies | ConventionalMethods/sotl.py:61 | Both lookups of `phase_occ` succeed or it is a KeyError. |
| Sotl.DecideAsWritten | ConventionalMethods/sotl.py:61-66 | As written, every step asks to switch. The time is recorded only when the next phase is not busier. |
| Sotl.DecideAsWrittenSwitchesFromBusierPhase | ConventionalMethods/sotl.py:61-66 | Occupancies {0: 0.8, 1: 0.1} in phase 0 still switch. The corrected rule keeps the phase. |
| Sotl.SotlDecide | ConventionalMethods/sotl.py:61-66 | As corrected, it switches exactly when the next phase is busier and otherwise keeps the phase and records the time. |
| Sotl.SotlDecideDiffersOnlyInKeep | ConventionalMethods/sotl.py:61-66 | The two rules agree on failures and the recorded time. They differ only in the keep branch's action. |
| Perturbation.EdgeSpeed | llm.py:88-92 | The speed is 1 exactly inside the window and 13 otherwise. |
| Perturbation.FaultArgument | llm.py:95-99 | Inside the window it is the broken detector, and outside it is ''. |
| Perturbation.SettingsAt | llm.py:87-99 | A call is made only for a configured edge or detector, with the window-dependent value. |
| Perturbation.FaultReadBack | llm.py:95-99 | After the call, the broken detector reads 'Not Work' exactly inside the window. Every other detector reads 'Work'. |
| LlmLoop.ParseIntOfChar | llm.py:107 | `int()` of one character succeeds exactly on a digit. |
| LlmLoop.ParseDecision | llm.py:105-111 | The last character is read as a digit and kept only within [0, phase_num). Any failure gives 1, so the result is < 10. |
| LlmLoop.ParseDecisionSelects | llm.py:107-109 | A decision ending in a valid phase's digit selects that phase. |
| LlmLoop.ParseDecisionExamples | llm.py:106-111 | "12" with 12 phases gives 2. "Phase 7" with 4 phases, "none" and "" give 1. |
| LlmLoop.IterationSettings | llm.py:87-99 | The edge is blocked exactly when 50 < s < 100. The fault is set exactly when 200 < s < 400, and '' is passed otherwise. |
| LlmRlLoop.ControllerAt | llm_rl.py:112-140 | The phase is random when s < 150 and comes from the agent when 150 < s < 300. At s = 150 and from 300 on it comes from the policy. |
| LlmRlLoop.ControllerMonotone | llm_rl.py:112-140 | Away from s = 150, time never returns to an earlier controller. |
| LlmRlLoop.BoundaryGoesToPolicy | llm_rl.py:136-140 | At exactly 150 the policy decides, and at 151 the agent does. |
| LlmRlLoop.PhaseId | llm_rl.py:112-140 | A random phase lies in [0, phase_num), and zero phases are a ValueError. Otherwise the phase is the agent's or the policy's. |
| LlmRlLoop.IterationSettings | llm_rl.py:112-125 | Perturbations are set only inside the agent window: the edge when 170 < s < 200, the fault when 220 < s < 250. |
| LlmRlLoop.FaultInForce | llm_rl.py:111-125 | A fault argument is in force exactly when some iteration fell inside the agent window. |
| LlmRlLoop.FaultSchedule | llm_rl.py:121-125 | With non-decreasing times there is no fault up to time 220. The fault is in force inside (220, 250) and cleared in [250, 300). |
| LlmRlLoop.FaultOutlivesWindow | llm_rl.py:112-125 | Steps 60 s apart skip the clearing, so the fault set at 240 is still in force when the policy takes over. |
| Text.DashesToUnderscoreIdempotent | TSCEnvironment/wrapper_utils.py:209 | Rewriting '--' to '_' twice is rewriting it once. |
| Text.ParseIntOfIntToString | TSCEnvironment/tsc_env_wrapper.py:120 | `int(str(n)) == n`. |
| Text.ParseInt | TSCEnvironment/tsc_env_wrapper.py:119-122 | A parsed value needs a digit in the stripped text. Blank text is rejected, and a negative value needs a leading '-'. |
| Text.ParseIntReference | TSCEnvironment/tsc_env_wrapper.py:119-122 | Whitespace, an optional '+' or '-', one or more digits (leading zeros allowed) and whitespace read as the signed value of the digits. " 02", "+2" and "2\n" all read as 2. |
| Text.ParseIntRejects | TSCEnvironment/tsc_env_wrapper.py:119-122 | Text whose part after the optional sign is empty or holds a non-digit is rejected, which `predict_future_scene` turns into a ValueError. |
| Text.ParseIntSkipsLeadingSpace | TSCEnvironment/tsc_env_wrapper.py:119-122 | A leading space does not change what `int()` reads. |

## Left out

- The simulator and SUMO: `env.reset`/`env.step`, `set_edge_speed`,
  `get_movement_state` and `close`. Substeps, reset states and step times are
  inputs.
- The trip-file renaming at the start of the base wrapper's `reset`
  (TSCEnvironment/base_tsc_wrapper.py:128-134). It is file I/O.
- The one-hot rows of `state_wrapper`, the `np.vstack` into a 7×12 array and
  the `float32` casts. The read-out is the masked window of reals.
- float32 rounding in `calculate_average`, and the digits of
  `f"{value*100}%"`.
- Occupancy.CalculateAverage: requires a non-empty buffer. The source does not
  guard that case, and numpy would return NaN with a warning, which has no
  counterpart over reals.
- BaseWrapper.Reset: models, as written, that the reset occupancy is appended
  in raw percent units, while `step` appends averages divided by 100.
- BaseWrapper.Step, BaseWrapper.Gate: they send the corrected
  `{tls_id: action}` to every substep. The as-written rebinding, which nests
  the action one junction deeper per extra substep, is modelled separately by
  `BaseWrapper.SubstepActionsAsWritten` (see Findings).
- BaseWrapper.Step and EnvWrapper.Step: the simulator's substeps are a finite
  sequence. A run with no ready substep in it is reported as `Stalled`. The
  state after an exception partway through is not modelled.
- The random draws: `np.random.poisson` is a stream `(position, rate) -> nat`.
  `np.random.randint(phase_num)` is a given draw reduced modulo phase_num. Their
  distributions are not modelled.
- LlmLoop.ParseDecision: the parsed `decision` is an optional string. A
  non-string decision is not modelled. Python's `assert` is taken as enabled
  (it disappears under `python -O`).
- Text.ParseInt: `int()` on text accepts the whitespace `str.isspace()`
  accepts, a sign and ASCII digits. Underscores between digits and non-ASCII
  digits are not modelled, so text using them is rejected.
- Sotl.PyMod: for a negative divisor only the range of the remainder is stated
  in the contract. The values are pinned by `Sotl.PyModExamples`.
- The language-model agent, its output parser, the RL policy, `description_env`
  and logging. Their answers are inputs.
- The tool classes `GetCurrentOccupancy` and `PredictQueueLength`. They format
  through tshub's `dict_to_str`, which is not part of this model.
- `get_int_info` (it uses `eval`), the Euclidean distance, the similarity
  averages and `get_occupancy_info`, which are floating-point scoring.
- The gym observation and action space declarations.
- The loops' termination on `dones`. The controllers are modelled one
  iteration at a time and over finite traces of step times.

## Findings

| source | as written | input that shows it | evidently intended | confidence | as-written member | corrected member |
|---|---|---|---|---|---|---|
| ConventionalMethods/sotl.py:61-66 | Both branches of the occupancy comparison assign `action = 0`. The comment on the else branch says the phase is kept. | Two phases, current phase 0, `phase_occ` {0: 0.8, 1: 0.1}: the loop still switches (`Sotl.DecideAsWrittenSwitchesFromBusierPhase`). | The else branch keeps the phase with action 1. | high; not executed | Sotl.DecideAsWritten | Sotl.SotlDecide |
| TSCEnvironment/base_tsc_wrapper.py:160-163 | `action = {self.tls_id: action}` inside the gating loop rebinds `action`. | A step whose first substep cannot act: the second substep receives `{tls: {tls: a}}` (`BaseWrapper.SubstepActionsAsWrittenNest`). | Every substep receives `{tls_id: action}`. | medium; not executed | BaseWrapper.SubstepActionsAsWritten | BaseWrapper.SubstepActions |
| TSCEnvironment/tsc_env_wrapper.py:124-125 | `predict_future_scene` walks `self.state` as if it held each junction's 'phase_queue_lengths'. `self.state` holds the occupancy read-out, whose values are strings. | Any reset that reports a movement, then phase index 0: indexing a string by a key is a TypeError (`EnvWrapper.PredictFutureSceneAsWrittenFails`). | Walk each junction's queue table, projecting the phase at `phase_index` green and the others red. | high; not executed | EnvWrapper.PredictFutureSceneAsWritten | EnvWrapper.PredictFutureScene |
