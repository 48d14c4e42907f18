# Trace and event-log data layer of the conformance explainer

This project models the data layer of the explainer in
`explainer/explainer.py`, part of a tool that checks recorded process traces
against declarative constraints and explains the result. It also proves
properties of that model. The modelled parts are:

- **Trace** (`Traces.Trace`): a list of activity labels plus the cursor of its
  own iteration protocol. `Iter` resets the cursor and `Next` hands out one
  label at a time, answering `None` where Python raises `StopIteration`.
  `Split` copies the labels with an append loop.
- **EventLog** (`EventLogs.EventLog`): a dictionary from a trace variant (its
  label sequence) to an occurrence count. Adding increments or inserts.
  Removing subtracts when the stored count is larger than the amount, and
  deletes the variant otherwise. Looking up an absent variant gives 0. The
  length is the sum of the counts. Iterating expands every variant into that
  many fresh traces. The dictionary updates are also given as functions on
  maps (`Added`, `Removed`, `Total`). The methods are specified by these
  functions, and the lemmas about them state what the log promises.
- **Explainer** (`Explainers.Explainer`): the constraint list and the
  minimal-solution switch. `AddConstraint` appends a constraint and takes it
  out again with Python's `list.remove` when the concrete explainer's
  contradiction check rejects the extended list. That check is abstract in
  the base class. Here it is the function `contradicts`, which the
  constructor receives.

The source never checks the sign of a count. The model therefore accepts
any integer count, as the code does. The invariant "every stored count is
positive" (`EventLog.Valid`) holds after construction. `AddTrace` keeps it
when its count is positive, and `RemoveTrace` keeps it for any count. The docstring of `remove_trace` says it decrements "if the
count is greater than 1", but the code compares the stored count with the
amount removed. The model follows the code here too.

## Model

| member | source | states |
|---|---|---|
| Traces.Trace.constructor | explainer/explainer.py:109-115 | the trace holds exactly the given labels |
| Traces.Trace.Length | explainer/explainer.py:117-121 | the length is zero exactly for the empty trace, so only that trace is falsy |
| Traces.Trace.Iter | explainer/explainer.py:123-128 | starting an iteration resets the cursor to 0 and returns the trace itself |
| Traces.Trace.Next | explainer/explainer.py:130-139 | below the end: returns the label under the cursor and advances it by one; at or past the end: signals the end and leaves the cursor alone |
| Traces.Trace.IterateAll | explainer/explainer.py:123-139 | a full iteration (`Iter`, then `Next` until it stops) yields the labels in order, as many as `Length`, and terminates |
| Traces.Trace.Split | explainer/explainer.py:141-150 | the list built by the append loop equals the trace's labels |
| EventLogs.Added | explainer/explainer.py:163-173 | after adding `c` of `v`: the count of `v` is its old count (0 if absent) plus `c`; every other count is unchanged; `v` is stored; positivity is kept for `c > 0` |
| EventLogs.Removed | explainer/explainer.py:175-186 | an absent variant leaves the log unchanged; a stored count larger than `c` drops by `c`; otherwise the variant is deleted and counts 0; other counts are unchanged; positivity is kept |
| EventLogs.TotalRemoveKey | explainer/explainer.py:203-207 | the sum of counts does not depend on the order the variants are visited in |
| EventLogs.TotalPositive | explainer/explainer.py:203-207 | with positive counts the length of the log is non-negative, and zero exactly for the empty log |
| EventLogs.TotalAdded | explainer/explainer.py:163-173 | adding `c` occurrences raises the length by exactly `c` |
| EventLogs.TotalRemoved | explainer/explainer.py:175-186 | removing `c` occurrences lowers the length by the smaller of `c` and the stored count, and by 0 for an absent variant |
| EventLogs.AddTwice | explainer/explainer.py:163-173 | adding `a` then `b` occurrences gives the same log, and so the same count, as adding `a + b` once |
| EventLogs.RemoveAfterAdd | explainer/explainer.py:163-186 | with positive counts and `c > 0`, adding then removing `c` occurrences restores exactly the previous log |
| EventLogs.RemoveAllClears | explainer/explainer.py:175-195 | removing a variant's whole count takes it out of the log, and its count becomes 0 |
| EventLogs.EventLog.constructor | explainer/explainer.py:153-161 | a new log is empty, except that it holds one occurrence of the given trace when that trace is present and non-empty; the log starts valid |
| EventLogs.EventLog.AddTrace | explainer/explainer.py:163-173 | the new dictionary is `Added` of the old one for the trace's labels; validity is kept for a positive count |
| EventLogs.EventLog.RemoveTrace | explainer/explainer.py:175-186 | the new dictionary is `Removed` of the old one for the trace's labels; validity is kept |
| EventLogs.EventLog.VariantCount | explainer/explainer.py:188-195 | the stored count of the trace's variant, 0 when absent; in a valid log the count is positive exactly when the variant is stored |
| EventLogs.EventLog.Len | explainer/explainer.py:203-207 | the length of the log is the sum of all stored counts |
| EventLogs.EventLog.Traces | explainer/explainer.py:209-215 | iteration yields pairwise distinct fresh traces: for each variant, exactly as many carrying its labels as its positive count, and none for others; in a valid log the number yielded equals the length |
| EventLogs.Repeat | explainer/explainer.py:214-215 | the inner loop yields `count` pairwise distinct fresh traces with the variant's labels, and none for a count that is not positive |
| Explainers.FirstIndex | explainer/explainer.py:31 | the position `list.remove` deletes: it holds the element and no earlier position does |
| Explainers.RemoveFirst | explainer/explainer.py:31 | `list.remove` takes out exactly one copy of the element (multiset difference); the elements before its first occurrence keep their places and the later ones move one place left |
| Explainers.RemoveFirstAppendedNew | explainer/explainer.py:29-31 | appending a constraint not yet present and removing it again gives back the original list |
| Explainers.RemoveFirstAppendedDuplicate | explainer/explainer.py:29-31 | when an equal constraint was already present, the earlier copy is the one removed and the appended one stays at the end |
| Explainers.Explainer.constructor | explainer/explainer.py:4-11 | a new explainer has no constraints, no adherent traces, and the minimal-solution switch off |
| Explainers.Explainer.SetMinimalSolution | explainer/explainer.py:13-21 | the switch takes the given value, and nothing else changes |
| Explainers.Explainer.AddConstraint | explainer/explainer.py:23-32 | if the extended list is not contradictory it is kept; otherwise the first equal constraint is removed, which leaves the multiset of constraints unchanged, and the list exactly as before when the constraint was new |

## Left out

- The abstract explainer operations (`remove_constraint`, `activation`, `conformant`, `contradiction`, `minimal_expl`, `counterfactual_expl`, `evaluate_similarity`, the conformance and fitness rates and the four contribution measures, explainer/explainer.py:34-106) have no body in the source. Only `contradiction` appears, as the `contradicts` predicate used by `AddConstraint`. Its `check_multiple` and `max_length` arguments keep their defaults and are not modelled.
- The message that `add_constraint` prints on rejection (explainer/explainer.py:32) is console output and is left out.
- `EventLog.__str__` (explainer/explainer.py:197-201) is Python dictionary formatting and is left out.
- EventLogs.EventLog.Len: returns the sum of the counts whatever its value. Python's builtin `len()` checks what `__len__` returns: a negative sum, which only non-positive counts given to `add_trace` can produce, raises `ValueError`, and a sum above `sys.maxsize` raises `OverflowError`. Neither error is modelled.
- EventLogs.EventLog.Traces: the order of variants is left unspecified. Python dictionaries iterate in insertion order, and re-adding a removed variant moves it to the end. The model only states how many traces carry each variant. It also returns the traces as one list, where the source yields them lazily.
- Traces.Trace.constructor: the cursor starts at 0. In Python `index` does not exist until `__iter__` runs, so calling `__next__` first raises an attribute error that the model does not have.
- Traces.Trace.constructor: the trace keeps an immutable copy of the labels. The source stores the caller's list itself, so a later change to that list through another reference would show up in the trace. That aliasing is not modelled.
- The driver script that walks model files and plots results, and the fixture of expected compiler output, are not part of this model.
