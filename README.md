# Certainty-factor diagnosis core

A Dafny model of the two pieces of logic in a small rule-based medical
expert system.

- `Engine` (`engine.dfy`) models `infer` from `inference_engine/engine.py`.
  It is the evidence aggregator. It takes the observed symptom codes and an
  ordered list of rules. Each rule has an `if` list of required codes, a
  `then` diagnosis code and a `cf` confidence. A rule fires when all of its
  required codes are observed. The first firing rule for a diagnosis stores
  its `cf`. Each later one is folded in with the parallel certainty-factor
  rule `cf_old + cf * (1 - cf_old)`.
  - The method `Infer` is the source's loop: a `for` loop over the rules
    with a `map` accumulator.
  - It is proved equal to `Evidence`, a left fold of one loop iteration
    (`Step`) over the rules, with `Combine` as the combination formula.
  - Against an independent closed form: a diagnosis has an entry exactly
    when one of its rules fires (`Fired`). Its score is `1 - Π(1 - cf_i)`
    over its firing rules (`Residual`).
  - Lemmas give the [0,1] bound, monotonicity, and each firing rule's `cf`
    as a lower bound. They also give the single-rule case, the empty-facts
    case and independence from rule order.
- `Gui` (`gui.dfy`) models `run_inference` from `ui/gui.py`. It is the
  classifier the desktop front end calls. It turns the selected symptoms
  into a set. It then picks one of four fixed messages by a prioritised
  chain of membership tests. The function also calls the rules loader, but
  discards the result and swallows any ordinary `Exception` it raises. The
  model takes the load outcome as a parameter that the result does not
  depend on.

Confidences are Dafny `real`s, so the algebra is exact. The [0,1] bound and
order-independence are statements about real arithmetic.

A rule whose `if` list is empty fires on any facts, including none
(inference_engine/engine.py:10). So an empty fact list gives an empty map
only when no rule has an empty `if` list; see `Engine.EmptyFacts`.

## Model

| member | source | states |
|---|---|---|
| `Engine.AllPresent` | inference_engine/engine.py:10 | The left-to-right, short-circuiting scan over a rule's conditions is true iff every condition is among the facts. |
| `Engine.Fires` | inference_engine/engine.py:10 | A rule fires iff every code in its `if` list is among the facts. A rule with an empty `if` list always fires. |
| `Engine.Infer` | inference_engine/engine.py:7-18 | The loop returns the fold `Evidence` of the rules in order. Its keys are exactly the conclusions of firing rules. Each value is `1 - Π(1 - cf)` over that diagnosis's firing rules. |
| `Engine.StepEffect` | inference_engine/engine.py:10-17 | One loop iteration (`Step`): a rule that does not fire changes nothing. A firing rule adds its conclusion as a key. A new key gets the rule's `cf` unchanged. An existing key's disbelief `1 - cf_old` is multiplied by `1 - cf`. Every other entry is unchanged. |
| `Engine.CombineComplement` | inference_engine/engine.py:16 | The disbelief left after `cf_old + cf*(1 - cf_old)` is `(1 - cf_old)(1 - cf)`, the product of the two disbeliefs. |
| `Engine.CombineBounds` | inference_engine/engine.py:16 | For inputs in [0,1] the combined value is in [0,1] and at least as large as each input. |
| `Engine.CombineCommutes` | inference_engine/engine.py:16 | The combination is symmetric in its two confidences. |
| `Engine.CombineSwap` | inference_engine/engine.py:13-17 | Folding two confidences into an existing score gives the same result in either order. |
| `Engine.StepCommutes` | inference_engine/engine.py:9-17 | Two consecutive rules can be processed in either order with the same resulting map, whether or not they fire or share a conclusion. |
| `Engine.MoveToEnd` | inference_engine/engine.py:9-17 | Moving any one rule to the end of the rule list leaves the result unchanged. |
| `Engine.EvidencePermutation` | inference_engine/engine.py:9-17 | Any two rule lists that are permutations of each other (equal multisets) give the same map. In particular the rules sharing a conclusion can be reordered. |
| `Engine.EvidenceKeys` | inference_engine/engine.py:8-17 | The key set of the result is exactly the set of conclusions of the rules that fire. An empty rule list gives an empty map. |
| `Engine.ClosedForm` | inference_engine/engine.py:8-17 | A diagnosis's value is `1 - Π(1 - cf_i)` over the firing rules that conclude it. A diagnosis without an entry has an empty product. |
| `Engine.EvidenceInRange` | inference_engine/engine.py:8-17 | If every rule's `cf` is in [0,1], every value in the result is in [0,1]. |
| `Engine.Monotone` | inference_engine/engine.py:13-17 | With confidences in [0,1], appending rules never removes a diagnosis and never lowers its score. |
| `Engine.AtLeastEachFiringRule` | inference_engine/engine.py:10-17 | With confidences in [0,1], a firing rule's conclusion is in the result with a score at least that rule's `cf`. |
| `Engine.SingleFiringRule` | inference_engine/engine.py:11-17 | When exactly one firing rule concludes a diagnosis, its result equals that rule's `cf`. |
| `Engine.EmptyFacts` | inference_engine/engine.py:10 | With no observed facts, the result is empty iff no rule has an empty `if` list. A rule with an empty `if` list always fires. |
| `Engine.TwoRulesExample` | inference_engine/engine.py:9-17 | Rules `[A]→X 0.6` and `[B]→X 0.5` on facts `A, B` give exactly `{X: 0.8}`. |
| `Engine.SingleRuleExample` | inference_engine/engine.py:9-17 | `infer` on the demo's sample facts `["G05"]` (line 22) with the one-rule list `[Rule(["G05"], "P01", 0.9)]` gives exactly `{P01: 0.9}`. On no facts it gives the empty map. |
| `Gui.RunInference` | ui/gui.py:16-44 | The result is one of the four fixed messages. It is the viral-infection message iff fever, cough and fatigue are all selected. It is the migraine message iff that is not the case and headache and nausea are both selected. It is the no-clear-result message iff neither headache nor fever is selected. |
| `Gui.CommonSymptomsCase` | ui/gui.py:41-42 | The general-symptoms message is returned iff neither stronger diagnosis applies and headache or fever is selected. |
| `Gui.ViralDominates` | ui/gui.py:37-38 | Once fever, cough and fatigue are selected, adding any other symptoms still gives the viral-infection message. |
| `Gui.SetSemantics` | ui/gui.py:24-35 | Two symptom lists with the same members give the same message, whatever their order and repetitions. The outcome of loading the rules file makes no difference either. |

## Left out

- `load_rules` (inference_engine/engine.py:3-5) and `muat_aturan` (ui/gui.py:7-14) open files and parse JSON. Rules enter the model already parsed, as `Engine.Rule` values. The outcome of `muat_aturan` enters `Gui.RunInference` as a `RuleLoad` parameter that records only success or failure, since the parsed content is never used.
- The `KeyError` a rule without `if`, `then` or `cf` would raise is not modelled. The `Rule` datatype always has all three fields.
- The `__main__` demo in inference_engine/engine.py:20-23 and the `print` in ui/gui.py:32 are console output. The demo's rule file `rules.json` is not part of this model, so which rules its sample `["G05"]` triggers is not known here. `Engine.SingleRuleExample` runs `infer` on that sample with a one-rule list of its own choosing.
- The path construction with `os.path` (ui/gui.py:5) is environment plumbing.
- IEEE floating-point rounding of `cf` arithmetic is not modelled: confidences are exact reals. Float addition is not associative, so the order-independence lemmas hold for the real-valued formula only.
- The insertion order of the Python dictionary's keys is not modelled, because a Dafny `map` is unordered. It only affects the order in which a caller prints the diagnoses.
- Python also accepts facts and conditions of other hashable types, and integer `cf` values. The model fixes codes to strings and confidences to reals.
