# pyflowtool in Dafny

A model of the core of `pyflowtool.py`, a small stock/flow (compartmental)
simulation engine. A model author declares:

- **inventories** (stocks with an initial level);
- **flows** (rates computed by a callback, draining a source inventory and
  feeding a sink inventory);
- **variables** (derived quantities computed by a callback);
- **displays** (which series to plot).

`pf_run_model` then does three things:

- validates and links the registry (`_compile_inputs`);
- allocates one time series per entity;
- fills the series row by row with an explicit Euler integrator.

The model keeps the source's shape. The registry is the class
`FlowModel.Model`, whose ordered dictionaries are `seq` fields the
declaration methods reassign. The time series are three `array2<real>`
written in place, one series per entity, indexed by step. Each method with
a loop is proved against a specification function, and the properties
the engine promises are lemmas about those functions:

| module | what it holds |
|---|---|
| `Entities` | the records and the dynamically typed declaration arguments |
| `Registry` | the declaration calls as functions on the dictionaries |
| `Linker` | what `_compile_inputs` leaves behind |
| `Stepper` | one integrator step and the row function `RowAt` |
| `Series` | the stepping loop on the arrays |
| `Conservation` | conservation of the total level under the Euler update |
| `FlowModel` | the registry class itself |
| `Findings` | the places where the code as written departs from its evident intent |

A few conventions run through the whole model:

- **Callbacks** are Dafny function values `(t, context) -> Outcome`. Here
  `Raised` stands for an exception escaping the callback.
- **Raising declaration calls** return a `Status` instead of raising.
- **Quantities** are `real`.
- **The display label** (`label` in the source) is the field `labelText`, because `label` is a reserved word in Dafny.

## Model

| member | source | states |
|---|---|---|
| Registry.RegisterInventory | pyflowtool.py:199-212 | a truthy non-string nickname is refused, otherwise a name already registered is refused; both leave the dictionary unchanged; otherwise exactly one inventory is appended with the given value and empty `out`/`in` lists; distinct keys stay distinct |
| Registry.RegisterEach | pyflowtool.py:221-224 | the registered inventories are the old ones followed by a prefix of the names, each a string bound to its own value; the loop succeeds exactly when every name was registered; distinct keys stay distinct |
| Registry.RegisterEachStep | pyflowtool.py:221-224 | after a successful prefix, one more element either fails as not a string or registers through `_build_inven` |
| Registry.RegisterEachErrStep | pyflowtool.py:221-224 | a prefix that failed stays failed, with the same registry, when the loop is given one more element |
| Registry.RegisterEachStops | pyflowtool.py:221-224 | the first failure of the loop is its result: later elements are never registered or checked |
| Registry.MakeInventories | pyflowtool.py:215-226 | a list name with a non-list value, or with lists of different lengths, raises before anything is registered; a string name registers one inventory; any other name registers nothing; distinct keys stay distinct |
| Registry.MakeKeepsUnlinked | pyflowtool.py:208-212 | every inventory `pf_make_inventory` registers starts with empty flow lists, so an unlinked registry stays unlinked |
| Registry.DeclareFlow | pyflowtool.py:229-256 | a missing name, a non-string source or a non-string sink raises, in that order; redeclaring a name raises a source conflict when the source differs, a sink conflict when only the sink differs, and otherwise replaces the callback only, keeping every record's name and endpoints; a new name appends one record; failures leave the dictionary unchanged |
| Registry.DeclareVariable | pyflowtool.py:269-276 | a missing callback, a missing name or a name already declared raises, and the call succeeds exactly when none applies; success appends exactly one variable |
| Registry.DeclareDisplay | pyflowtool.py:89-121 | the call succeeds exactly when the name is new, the three groups are lists of strings and the label is None or a string; failures are reported in the order of the checks: duplicate name, then the first of the three groups that is not a list, then the first that holds a non-string, then the label; success appends one display holding the given names and label |
| Linker.Resolve | pyflowtool.py:27-32 | an endpoint survives exactly when it names a registered inventory, and then unchanged |
| Linker.Cleared | pyflowtool.py:27-32 | clearing touches only the endpoints: each survives, unchanged, exactly when it names a registered inventory; the name and the callback are kept |
| Linker.Dropped | pyflowtool.py:33-45 | a flow, its unknown endpoints cleared, is kept exactly when it still has an endpoint and its name is used by no inventory and no variable |
| Linker.Checked | pyflowtool.py:26-49 | the check clears an endpoint that names no registered inventory and keeps the other, keeps the flow's name and any callback it was declared with, and every flow that survives the drop tests comes out with a callback: as corrected for the first finding, one without a callback gets `ZeroRate`, a callback returning rate 0 |
| Linker.CheckedAll | pyflowtool.py:25-49 | every flow record is checked in place, in order |
| Linker.KeptFlows | pyflowtool.py:25-55 | every surviving flow keeps an endpoint, names only registered inventories, has a callback and a name free of inventories and variables; survivors are flows that were declared, with distinct names |
| Linker.DroppedFlowNames | pyflowtool.py:24-45 | only declared flow names are collected for deletion |
| Linker.WithoutFlows | pyflowtool.py:57-58 | popping the listed names never adds a flow |
| Linker.WithoutFlowsExact | pyflowtool.py:57-58 | what remains are flows of the dictionary with unlisted names, and every flow with an unlisted name remains |
| Linker.WithoutAbsentName | pyflowtool.py:57-58 | popping a name no flow has changes nothing, like `pop(k, None)` |
| Linker.DropLeavesKept | pyflowtool.py:57-58 | deleting the collected names from the checked records leaves exactly the surviving flows |
| Linker.Outgoing | pyflowtool.py:51-52 | an inventory's `out` list only names declared flows |
| Linker.Incoming | pyflowtool.py:54-55 | an inventory's `in` list only names declared flows |
| Linker.LinksExact | pyflowtool.py:50-55 | a flow is in an inventory's `out` (`in`) list exactly when its source (sink) is that inventory, and each list holds each flow once |
| Linker.OutgoingExact | pyflowtool.py:51-52 | a flow is in the `out` list exactly when its source is the inventory, and the list has no repeats |
| Linker.IncomingExact | pyflowtool.py:54-55 | a flow is in the `in` list exactly when its sink is the inventory, and the list has no repeats |
| Linker.Link | pyflowtool.py:50-55 | each inventory's lists grow by the surviving flows it drains and feeds, in registration order, and nothing else about the inventories changes |
| Linker.KeptVars | pyflowtool.py:60-72 | surviving variables have names free of inventories and surviving flows, were declared, and keep distinct names |
| Linker.DroppedVarNames | pyflowtool.py:60-69 | only declared variable names are collected for deletion |
| Linker.WithoutVars | pyflowtool.py:71-72 | popping the listed names never adds a variable |
| Linker.WithoutVarsExact | pyflowtool.py:71-72 | what remains are variables of the dictionary with unlisted names, and every variable with an unlisted name remains |
| Linker.WithoutAbsentVar | pyflowtool.py:71-72 | popping a name no variable has changes nothing |
| Linker.DropLeavesKeptVars | pyflowtool.py:71-72 | deleting the collected names leaves exactly the surviving variables |
| Linker.CompileYieldsCompiled | pyflowtool.py:22-72 | after validation of an unlinked registry: names are distinct and pairwise disjoint across inventories, flows and variables; every flow has an endpoint, only registered endpoints and a callback; each inventory's lists are exactly its outgoing and incoming flows |
| Linker.Compiled | pyflowtool.py:22-72 | a registry the stepper can run; in one, every name an inventory lists as drained or fed is a declared flow |
| Linker.Compilation | pyflowtool.py:22-72 | `_compile_inputs` as corrected: inventories keep their keys in order; surviving flows were declared and have names free of inventories and variables; surviving variables were declared and have names free of inventories and surviving flows; an unlinked registry with distinct keys comes out `Compiled` |
| Linker.KeptFlowsMember | pyflowtool.py:25-55 | a flow survives exactly when, its unknown endpoints cleared, it keeps an endpoint and its name is free; it survives as the checked record |
| Linker.UnknownSourceCleared | pyflowtool.py:27-36 | an unknown source on its own does not drop a flow: the flow survives with the source cleared and the sink kept |
| Linker.UnknownSinkCleared | pyflowtool.py:27-36 | an unknown sink on its own does not drop a flow: the flow survives with the sink cleared and the source kept |
| Linker.AppendOut | pyflowtool.py:51-52 | appending to an `out` list keeps every inventory's name |
| Linker.AppendIn | pyflowtool.py:54-55 | appending to an `in` list keeps every inventory's name |
| Linker.Attach | pyflowtool.py:50-55 | linking one flow keeps every inventory's name |
| Linker.AttachAt | pyflowtool.py:50-55 | linking one flow appends its name to exactly the source's `out` list and the sink's `in` list |
| Linker.LinksAppend | pyflowtool.py:50-55 | one more surviving flow extends the `out` and `in` lists of its endpoints only |
| Linker.LinkStep | pyflowtool.py:25-55 | linking flows one at a time as the loop does builds the links of all surviving flows |
| Linker.WithoutFlowsPop | pyflowtool.py:57-58 | popping the names one after another is popping them all |
| Linker.WithoutNoFlows | pyflowtool.py:57-58 | popping no names leaves the flows as they are |
| Linker.WithoutVarsPop | pyflowtool.py:71-72 | popping variable names one after another is popping them all |
| Linker.WithoutNoVars | pyflowtool.py:71-72 | popping no names leaves the variables as they are |
| Linker.CompileStep | pyflowtool.py:25-55 | each flow of the loop is either collected for deletion or kept as its checked record, never both |
| Linker.LinkNothing | pyflowtool.py:50-55 | linking no flows leaves the inventories as they were |
| Stepper.BindDomain | pyflowtool.py:79-87 | filling the context adds every name and keeps every other key and its value |
| Stepper.BindAt | pyflowtool.py:79-87 | with distinct names each name is bound to its own value |
| Stepper.BindCount | pyflowtool.py:81-86 | filling an empty dictionary with distinct names makes exactly one entry per name |
| Stepper.RowContextAt | pyflowtool.py:79-87 | with names disjoint across the dictionaries, the context maps every inventory, flow and variable to its value in the row |
| Stepper.RowContext | pyflowtool.py:79-87 | the dictionary has at most one entry per entity |
| Stepper.RowContextKeys | pyflowtool.py:79-87 | its keys are exactly the names of the inventories, flows and variables |
| Stepper.EvalVars | pyflowtool.py:170-174 | the variable pass yields one value per variable |
| Stepper.EvalVarsContext | pyflowtool.py:170-174 | the context after the variable pass is the row's context with every variable bound to its new value |
| Stepper.EvalVarsPrefix | pyflowtool.py:170-174 | the pass over the first `j` variables is the start of the whole pass, and variable `j` returned its value on the context that pass left |
| Stepper.EvalFlows | pyflowtool.py:177-183 | the flow pass yields one rate per flow |
| Stepper.RateOf | pyflowtool.py:180-181 | a callback's `None` reads as rate 0, any other result as itself |
| Stepper.EvalFlowsSpec | pyflowtool.py:177-183 | the flow pass returns exactly when every flow has a callback that returns on the shared context; each rate is its callback's result with `None` read as 0 |
| Stepper.Euler | pyflowtool.py:185-193 | the update yields one level per inventory |
| Stepper.SumRates | pyflowtool.py:186-192 | a list of one flow sums to that flow's result |
| Stepper.SumRatesSign | pyflowtool.py:186-192 | the sum of non-negative results is non-negative |
| Stepper.Delta | pyflowtool.py:186-192 | an inventory with no linked flows has `dI` 0 |
| Stepper.DeltaSign | pyflowtool.py:186-192 | an inventory only fed by non-negative results has `dI` at least 0; one only drained by them has `dI` at most 0 |
| Stepper.Advance | pyflowtool.py:185-193 | an updated row keeps the flow rates and new variable values as computed |
| Stepper.NextRow | pyflowtool.py:165-193 | the next row has one value per inventory, flow and variable |
| Stepper.NextRowParts | pyflowtool.py:168-193 | a computed row came from both passes returning, its flow and variable values are theirs, and its levels are the update by those rates |
| Stepper.CompiledResolves | pyflowtool.py:185-193 | in a validated registry every flow an inventory lists has a result, so `results[f]` never fails |
| Stepper.CompiledStepRaises | pyflowtool.py:168-193 | in a validated registry a step fails exactly when a variable or flow callback raises |
| Stepper.InitialRow | pyflowtool.py:157-163 | row 0 has one value per entity |
| Stepper.TimeAtValue | pyflowtool.py:166 | the clock of step `T` is `start + T * step` |
| Stepper.RowAt | pyflowtool.py:165-193 | every row the run reaches has one value per entity |
| Stepper.RowAtStep | pyflowtool.py:165-193 | a reached row `T` is the step from a reached row `T - 1` |
| Stepper.RowAtNext | pyflowtool.py:165-193 | from a reached row the run takes the step at that row's clock |
| Stepper.RowAtPrefix | pyflowtool.py:165-193 | a run that reached row `T` reached every earlier row |
| Stepper.RowAtBack | pyflowtool.py:165-193 | a run that reached row `T > 0` reached row `T - 1` |
| Stepper.SeenValues | pyflowtool.py:168-174 | after `j` variables the context holds their new values and the previous row's values of everything else |
| Stepper.PassOrder | pyflowtool.py:170-174 | variable `j` returned its value on the context holding the new values of the variables before it |
| Stepper.VariableOrder | pyflowtool.py:168-174 | a variable sees this step's values of the variables declared before it, and the previous row's values of itself, the later variables, the inventories and the flows |
| Stepper.FlowLag | pyflowtool.py:177-183 | every flow sees the previous row's value of every flow, the previous row's inventories and all new variable values; its stored value is its result with `None` read as 0 |
| Stepper.EulerRule | pyflowtool.py:185-193 | the update fails exactly when a listed flow has no result; otherwise every level moves by incoming minus outgoing results times the step |
| Stepper.StepKeepsUnlinked | pyflowtool.py:185-193 | one step leaves an inventory with no linked flows at its level |
| Stepper.RowAtKeepsUnlinked | pyflowtool.py:165-193 | each reached row keeps an unlinked inventory's level from the row before |
| Stepper.UnlinkedInventoryConstant | pyflowtool.py:165-193 | an inventory with no linked flows holds its initial value in every row the run reaches |
| Series.BindColumn | pyflowtool.py:81-86 | one loop of `_make_model_dict` binds each name to its series' value at step `T` |
| Series.Put | pyflowtool.py:173 | one write of step `T` sets one entry and leaves every other step and series alone |
| Series.ModelDict | pyflowtool.py:79-87 | the dictionary built from the arrays at step `T` is the context of the row they hold |
| Series.VariablePass | pyflowtool.py:170-174 | the variable loop succeeds exactly when the variable pass returns; it writes its values at step `T + 1`, leaves the context the pass leaves, and touches no other step |
| Series.FlowPass | pyflowtool.py:177-183 | the flow loop succeeds exactly when the flow pass returns; it writes the rates at step `T + 1`, keys `results` by flow name, and touches no other step |
| Series.FlowNext | pyflowtool.py:178-183 | one more flow either extends the computed rates, `results` and step `T + 1` together, or makes the whole pass raise |
| Series.CallFlow | pyflowtool.py:179-181 | a call returns exactly when the flow has a callback that returns, and `None` reads as 0 |
| Series.EvalFlowsNext | pyflowtool.py:177-183 | the pass over one more flow whose callback returns appends its rate |
| Series.BindNext | pyflowtool.py:182 | storing one more result extends `results` by that flow's name |
| Series.FlowPassFails | pyflowtool.py:179 | a flow without a callback, or whose callback raises, makes the pass raise |
| Series.InventoryPass | pyflowtool.py:185-193 | the inventory loop succeeds exactly when every listed flow has a result; it writes step `T + 1` as step `T` plus the net change times the step, and touches no other step |
| Series.Change | pyflowtool.py:186-192 | `dI` is the incoming results minus the outgoing results, and the loop fails exactly at a missing result |
| Series.StepRow | pyflowtool.py:165-193 | one iteration succeeds exactly when the row function's step does, and then step `T + 1` holds the next row; no other step changes |
| Series.Clock | pyflowtool.py:166 | `t` is the clock of step `T` |
| Series.ReachedNext | pyflowtool.py:165-193 | the row after the reached ones is the step from the last of them |
| Series.ReachedLast | pyflowtool.py:165-193 | the last reached row has one value per entity, and the next row is the step from it |
| Series.ReachedExtend | pyflowtool.py:165-193 | a reached row extends the reached rows |
| Series.RaisedStops | pyflowtool.py:165-193 | once a step raises, no later row is reached |
| Series.StepHeld | pyflowtool.py:165-193 | a step over the arrays keeps the rows already written and, when it returns, writes the next row |
| Series.StepReached | pyflowtool.py:165-193 | a step from the reached rows returns exactly when the row function reaches the next row, and then the arrays hold it |
| Series.HeldReached | pyflowtool.py:165-193 | what a step over the arrays writes is the row function's next row, and the reached rows grow by it |
| Series.HeldAreReached | pyflowtool.py:165-193 | the rows the arrays hold are the row function's rows |
| Series.StepCountCovers | pyflowtool.py:155 | for a forward run the row count is at least 1, the last row's clock is at most `stop`, and one more step would pass it |
| Series.Trunc | pyflowtool.py:155 | `int()` of a float truncates toward zero: the result lies within 1 of its argument, on the same side of 0, and no farther from 0 |
| Series.StepCount | pyflowtool.py:155 | a zero step has no row count (the division raises); otherwise a non-negative quotient `(stop - start) / step` gives at least one row, with the quotient between the count minus 1 and the count; a negative quotient gives at most one row |
| Series.Allocate | pyflowtool.py:157-163 | the series are fresh and distinct with one series per entity of length `N`; inventories start filled with their initial value, flows and variables with 0 |
| Series.Steps | pyflowtool.py:165-193 | the loop writes the reached rows and stops at the first step that raises; it completes exactly when every row is reached |
| Series.Run | pyflowtool.py:155-193 | the run completes exactly when the row function reaches the last row; then every row of the series is that row function's row |
| Conservation.Linked | pyflowtool.py:50-55 | an inventory's list names only declared flows |
| Conservation.SumRatesAppend | pyflowtool.py:186-192 | summing results over two lists in turn is summing over their concatenation |
| Conservation.SumRatesAgree | pyflowtool.py:186-192 | the sum depends only on the results of the listed names |
| Conservation.ResultsAt | pyflowtool.py:182 | with distinct flow names each flow's result is its rate |
| Stepper.ResultsCount | pyflowtool.py:178-182 | `results` holds at most one entry per flow, and exactly one when flow names are distinct |
| Conservation.LinkedResolve | pyflowtool.py:185-193 | every flow an inventory's list names has a result |
| Conservation.ResultsPrefix | pyflowtool.py:182 | the results of all but the last flow agree with those of the whole pass |
| Conservation.LinkedSum | pyflowtool.py:186-192 | summing the results over an inventory's linked list adds up the rates of the flows ending at it |
| Conservation.LinkedLast | pyflowtool.py:50-55 | an inventory's list ends with the last flow when that flow ends at it |
| Conservation.LastResult | pyflowtool.py:182 | the last flow's result is its rate |
| Conservation.EndSumsNet | pyflowtool.py:185-193 | counting every flow at its sink minus at its source leaves only single-endpoint flows |
| Conservation.TotalAffine | pyflowtool.py:193 | moving every level by its rate times the step moves the total by the total rate times the step |
| Conservation.TotalDeltas | pyflowtool.py:185-193 | the inventories' changes add up to their summed change |
| Conservation.TotalEuler | pyflowtool.py:193 | the Euler update moves the total by the summed changes times the step |
| Conservation.DeltaTotalLinks | pyflowtool.py:185-193 | with inventories linked to the flows, the summed changes are the flows counted at their sinks minus at their sources |
| Conservation.StepConservation | pyflowtool.py:185-193 | one step of a validated registry changes the total level by the external net flow times the step; flows between two inventories cancel |
| Conservation.EulerConserves | pyflowtool.py:185-193 | the Euler update by any rates of a validated registry moves the total by the external net flow times the step |
| Conservation.NetOfLinked | pyflowtool.py:185-193 | in a validated registry the summed changes equal the external net flow |
| Conservation.ClosedNoExternal | pyflowtool.py:185-193 | when every flow has both endpoints, the external net flow is 0 |
| Conservation.KeptTotal | pyflowtool.py:165-193 | a run whose every step keeps the total keeps the initial total in every reached row |
| Conservation.ClosedRunConserves | pyflowtool.py:165-193 | in a validated registry whose flows all have both endpoints, every reached row has the initial total level |
| Conservation.RowAtConserves | pyflowtool.py:165-193 | in such a registry each reached row has the total of the row before |
| FlowModel.Model.constructor | pyflowtool.py:19 | the registry starts empty, with distinct keys and nothing linked |
| FlowModel.Model.Reset | pyflowtool.py:75-76 | as intended, reset empties every dictionary |
| FlowModel.Model.ResetAsWritten | pyflowtool.py:75-76 | as written, reset leaves every dictionary as it was |
| FlowModel.Model.BuildInventory | pyflowtool.py:199-212 | the inventories and the error are those of `RegisterInventory`; the other dictionaries are unchanged |
| FlowModel.Model.BuildEach | pyflowtool.py:221-224 | the loop leaves the registry and error of `RegisterEach`, stopping at the first failure; distinct keys stay distinct |
| FlowModel.Model.MakeInventory | pyflowtool.py:215-226 | as corrected for the length-comparison finding, the inventories and error are those of `MakeInventories`; other dictionaries are unchanged |
| FlowModel.Model.BuildFlow | pyflowtool.py:229-262 | the flows and error are those of `DeclareFlow`; other dictionaries are unchanged |
| FlowModel.Model.BuildVariable | pyflowtool.py:269-281 | the variables and error are those of `DeclareVariable`; other dictionaries are unchanged |
| FlowModel.Model.MakeDisplay | pyflowtool.py:89-121 | the displays and error are those of `DeclareDisplay`; other dictionaries are unchanged |
| FlowModel.Model.CheckFlow | pyflowtool.py:26-49 | one record is cleared and completed as `Checked` says (a missing callback becomes `ZeroRate`, as corrected); it is dropped exactly when `Dropped` holds, and otherwise it is a flow the linker can attach |
| FlowModel.Model.LinkFlow | pyflowtool.py:50-55 | the two appends for one surviving flow are `Attach`; nothing else changes |
| FlowModel.Model.CheckNext | pyflowtool.py:25-55 | one iteration keeps the loop invariant: checked records, collected names and links for one more flow |
| FlowModel.Model.CheckFlows | pyflowtool.py:24-55 | the flow loop leaves every record checked, links exactly the surviving flows, and returns the names to delete |
| FlowModel.Model.PopFlows | pyflowtool.py:57-58 | the delete loop removes exactly the listed names |
| FlowModel.Model.CheckVars | pyflowtool.py:60-69 | the variable loop collects exactly the variables whose name an inventory or a flow has |
| FlowModel.Model.PopVars | pyflowtool.py:71-72 | the delete loop removes exactly the listed variables |
| FlowModel.Model.Compile | pyflowtool.py:22-72 | `_compile_inputs` as corrected for the empty-callback and empty-name findings leaves the registry `Compilation` describes and returns the names of the dropped flows and variables; an unlinked registry comes out runnable (`Compiled`); keys stay distinct |
| FlowModel.Model.Simulate | pyflowtool.py:155-193 | a zero step raises; a negative row count raises exactly when some series is allocated; otherwise the series have the computed length, the run completes exactly when the last row is reached, and then the series hold the row function's rows |
| FlowModel.Model.RunModel | pyflowtool.py:149-197 | validation as `Compile` (as corrected) followed by the run as `Simulate` on the validated registry |
| FlowModel.ResetKeepsEntries | pyflowtool.py:75-76 | a registry holding inventory `a` still holds it after the reset as written |
| Findings.CheckedAsWritten | pyflowtool.py:47-49 | as written, a surviving flow without a callback gets `_empty_func` |
| Findings.EmptyFuncStepRaises | pyflowtool.py:15-16 | a step over a flow whose callback is `_empty_func` always raises |
| Findings.EmptyFuncRunRaises | pyflowtool.py:165-183 | such a run fails at its first step and at every later row |
| Findings.EmptyFunc | pyflowtool.py:15-16 | a call of `_empty_func` with the stepper's two arguments never returns a rate |
| Findings.MissingCallbackRateZero | pyflowtool.py:47-49 | as corrected, a kept flow without a callback gets one that returns rate 0 on every input |
| Findings.AttachAsWritten | pyflowtool.py:50-55 | the truthiness test keeps every inventory's name and agrees with `Attach` unless an endpoint is the empty name |
| Findings.LinkAsWritten | pyflowtool.py:25-55 | linking as written keeps every inventory's name |
| Findings.LinkAgreesWithoutEmptyName | pyflowtool.py:50-55 | when no surviving flow names "" as an endpoint, linking as written is linking as intended |
| Findings.AttachSkipsEmptyName | pyflowtool.py:50-55 | as written, the inventory named "" is never appended to |
| Findings.EmptyNameNeverLinked | pyflowtool.py:50-55 | as written, the inventory named "" keeps its lists through the whole loop |
| Findings.EmptyNameNotDrained | pyflowtool.py:50-55 | a flow draining the inventory named "" is in its `out` list as intended but not as written, and as written that inventory keeps its initial value in every reached row |
| Findings.MakeInventoriesAsWritten | pyflowtool.py:215-226 | as written, equal-length lists of more than 256 names are refused, and otherwise the call agrees with `MakeInventories` |
| Findings.LengthsDifferAsWritten | pyflowtool.py:219 | the identity test agrees with `!=` on lengths up to 256, and reports two equal lengths above 256 as different |
| Findings.RegisterEachNoLengthError | pyflowtool.py:221-224 | the loop over the names never reports a length mismatch |
| Findings.LongListsRefused | pyflowtool.py:219-220 | equal-length lists of more than 256 names raise as written but pass the length check as corrected |

## Left out

- Plotting: `_display_results` (pyflowtool.py:124-146) and the `_display_results` call in `pf_run_model` are matplotlib output.
- FlowModel.Model.Compile, FlowModel.Model.CheckFlow, FlowModel.Model.CheckFlows, FlowModel.Model.RunModel, Linker.Checked, Linker.KeptFlows, Linker.Link and Linker.Compilation: these follow the corrected behaviour of the first two findings. A surviving flow without a callback gets `ZeroRate` instead of `_empty_func`, and an endpoint is linked when it is present rather than when it is truthy. The as-written behaviour is modelled separately in `Findings` (`CheckedAsWritten`, `AttachAsWritten`, `LinkAsWritten`).
- FlowModel.Model.MakeInventory and Registry.MakeInventories: these compare list lengths by value, as corrected for the third finding. The `is not` comparison as written is modelled by `Findings.MakeInventoriesAsWritten`.
- Warning prints: the printed warnings of `_compile_inputs` are not modelled as output. The warnings at pyflowtool.py:34, 39, 43, 63 and 67 name dropped entities, and `FlowModel.Model.Compile` returns those names as the dropped flow and variable names. The warnings at pyflowtool.py:28 and 31 name a flow whose endpoint is cleared, whether or not a later test drops it; the warning at 48 names a surviving flow; none of the three is modelled.
- Error message text: only which error is raised is modelled, not the text of any `ValueError`.
  - Redeclaring a flow with a conflicting endpoint where the stored or the new endpoint is `None` (pyflowtool.py:243-248) raises `TypeError` in the source. Concatenating `None` into the message fails before the `ValueError` is raised. `Registry.DeclareFlow` reports these cases as `ConflictingSource` or `ConflictingSink`, like every other conflict.
- Floating point: all quantities are `real`. numpy `float64` storage, rounding, and rounding in the division that computes the number of rows are not modelled.
  - `Series.StepCount` models `int((stop - start) / step) + 1` exactly, with truncation toward zero. A zero step is reported as `ZeroStep`; a negative count is reported as `NegativeLength` when some series would be allocated.
- Exceptions in a run: when a callback raises, Python propagates the exception and returns no arrays. The model returns `CallbackRaised` with the partly written arrays instead.
- The setup hook: `pf_setup` and the `_m_model['setup']()` call (pyflowtool.py:151, 289-290) are left out. Setup is a sequence of declaration calls on `FlowModel.Model`.
- The decorators: `pf_flow` and `pf_var` are reduced to their `_build_flow` and `_build_var` calls. The `functools.wraps` wrappers pass calls through, and `clamp` is never read.
- Identity tests: the `is not` comparisons of endpoints at pyflowtool.py:243 and 246 are modelled as string inequality. The one at pyflowtool.py:219 is a finding below.
- Value types: arguments the source never checks are typed by the model.
  - Declared names are strings.
  - The values handed to `pf_make_inventory` are numbers (`Registry.NumericValues`).
  - Variable callbacks return numbers.
  - Flow callbacks return `None` or a number.
- Unreachable display check: the test `invs is None and fs is None` (pyflowtool.py:117-118) is not modelled. It cannot hold once both were checked to be lists.
- Second runs: running `pf_run_model` twice links the surviving flows again and appends their names a second time. `FlowModel.Model.Compile` models that faithfully, but `Compiled` is proved only for a registry that was not linked before.
- `Stepper.EvalVars`: models the variable pass only. The ordering comment at pyflowtool.py:171 announces a dependency order the code does not implement, and the model does not implement it either.
- Example scripts: the example scripts are client code and are not part of this model.

## Findings

| source | as written | input that shows it | evidently intended | confidence | as-written member | corrected member |
|---|---|---|---|---|---|---|
| pyflowtool.py:15-16, 47-49 | a surviving flow declared without a callback gets `_empty_func`, which takes no arguments, while the stepper calls every flow callback as `f(t, model)` | any registry with a flow declared through `_build_flow(None, name='f', sink='a')` and inventory `a`, run over two rows: the first step raises `TypeError` | the fallback returns rate 0 | not executed; high | Findings.EmptyFuncRunRaises | Findings.MissingCallbackRateZero |
| pyflowtool.py:50-55 | endpoints are tested for truthiness before linking, so an inventory named `""` is never linked | inventory `""` with level 1 and a flow from `""` to nowhere returning rate 1: as written the inventory stays at 1 | test the endpoint against `None`, as lines 27 and 30 do | not executed; medium | Findings.EmptyNameNotDrained | Linker.Link |
| pyflowtool.py:219-220 | list lengths are compared with `is not`; CPython shares integer objects only from -5 to 256, so two equal lengths above 256 are different objects | `pf_make_inventory` with 257 names and 257 values raises "name and value must have same length" | compare the lengths with `!=` | not executed; medium (CPython-specific) | Findings.LongListsRefused | Registry.MakeInventories |
| pyflowtool.py:75-76 | `pf_reset_model` assigns a local name, so the registry is left as it was | declare inventory `a`, call `pf_reset_model()`: `a` is still declared | rebind the global registry to an empty one | not executed; high | FlowModel.ResetKeepsEntries | FlowModel.Model.Reset |
