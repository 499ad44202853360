/** The model registry as one object: the ordered dictionaries of
    inventories, flows, variables and displays that the declaration calls
    fill, `_compile_inputs` validates and links, and `pf_run_model` runs. */
module FlowModel {
  import opened Entities
  import opened Registry
  import opened Linker
  import opened Stepper
  import Series

  /** How a run ended. */
  datatype RunStatus =
    | Completed
    | ZeroStep        // the division computing the number of rows raised
    | NegativeLength  // allocating a series of negative length raised
    | CallbackRaised  // a callback raised, or a listed flow had no result

  class Model {
    var inventories: seq<Inventory>
    var flows: seq<Flow>
    var vars: seq<Variable>
    var displays: seq<Display>

    /** Every dictionary has distinct keys. */
    ghost predicate Valid()
      reads this
    {
      && Unique(InvNames(inventories)) && Unique(FlowNames(flows))
      && Unique(VarNames(vars)) && Unique(DisplayNames(displays))
    }

    /** The empty registry. */
    constructor ()
      ensures Valid() && Unlinked(inventories)
      ensures inventories == [] && flows == [] && vars == [] && displays == []
    {
      inventories := [];
      flows := [];
      vars := [];
      displays := [];
    }

    /** `pf_reset_model` as written: the assignment binds a name local to
        the call, so the registry is left as it was. */
    method ResetAsWritten()
      ensures inventories == old(inventories) && flows == old(flows)
      ensures vars == old(vars) && displays == old(displays)
    {
    }

    /** `pf_reset_model` as intended: the empty registry again. */
    method Reset()
      modifies this
      ensures Valid() && Unlinked(inventories)
      ensures inventories == [] && flows == [] && vars == [] && displays == []
    {
      inventories := [];
      flows := [];
      vars := [];
      displays := [];
    }

    /** `_build_inven`. */
    method BuildInventory(name: Name, nickname: Arg, value: real) returns (status: Status)
      requires Unique(InvNames(inventories))
      modifies this
      ensures (inventories, status) == RegisterInventory(old(inventories), name, nickname, value)
      ensures flows == old(flows) && vars == old(vars) && displays == old(displays)
    {
      if NicknameRejected(nickname) {
        return Err(NicknameNotString);
      }
      if name in InvNames(inventories) {
        return Err(DuplicateInventory(name));
      }
      inventories := inventories + [Inventory(name, nickname, value, [], [])];
      status := Ok;
    }

    /** The loop of `pf_make_inventory` over a list of names. */
    method BuildEach(names: seq<Arg>, values: seq<real>, nickname: Arg) returns (status: Status)
      requires Unique(InvNames(inventories))
      requires |names| == |values|
      modifies this
      ensures Unique(InvNames(inventories))
      ensures (inventories, status) == RegisterEach(old(inventories), names, values, nickname)
      ensures flows == old(flows) && vars == old(vars) && displays == old(displays)
    {
      var i := 0;
      while i < |names|
        invariant 0 <= i <= |names|
        invariant (inventories, Ok) == RegisterEach(old(inventories), names[..i], values[..i], nickname)
        invariant Unique(InvNames(inventories))
        invariant flows == old(flows) && vars == old(vars) && displays == old(displays)
      {
        RegisterEachStep(old(inventories), names, values, nickname, i);
        if !names[i].Str? {
          RegisterEachStops(old(inventories), names, values, nickname, i + 1);
          return Err(NameNotString);
        }
        status := BuildInventory(names[i].s, nickname, values[i]);
        if status.Err? {
          RegisterEachStops(old(inventories), names, values, nickname, i + 1);
          return;
        }
        i := i + 1;
      }
      assert names[..i] == names && values[..i] == values;
      status := Ok;
    }

    /** `pf_make_inventory`: one name, or a list of names with a list of
        values of the same length. */
    method MakeInventory(name: Arg, value: Arg, nickname: Arg) returns (status: Status)
      requires Valid() && NumericValues(name, value)
      modifies this
      ensures Valid()
      ensures (inventories, status) == MakeInventories(old(inventories), name, value, nickname)
      ensures flows == old(flows) && vars == old(vars) && displays == old(displays)
    {
      match name {
        case List(items) =>
          if !value.List? {
            return Err(ValuesNotList);
          }
          if |value.items| != |items| {
            return Err(LengthMismatch);
          }
          status := BuildEach(items, Reals(value.items), nickname);
        case Str(s) =>
          status := BuildInventory(s, nickname, value.x);
        case _ =>
          status := Ok;
      }
    }

    /** `_build_flow`, reached through the `pf_flow` decorator. */
    method BuildFlow(f: Option<FlowFn>, name: Option<Name>, source: Arg, sink: Arg) returns (status: Status)
      requires Valid()
      modifies this
      ensures Valid()
      ensures (flows, status) == DeclareFlow(old(flows), f, name, source, sink)
      ensures inventories == old(inventories) && vars == old(vars) && displays == old(displays)
    {
      if name.None? {
        return Err(MissingFlowName);
      }
      if EndpointRejected(source) {
        return Err(SourceNotString);
      }
      if EndpointRejected(sink) {
        return Err(SinkNotString);
      }
      if name.value in FlowNames(flows) {
        var k := IndexOf(FlowNames(flows), name.value);
        if flows[k].source != EndpointOf(source) {
          return Err(ConflictingSource(name.value));
        }
        if flows[k].sink != EndpointOf(sink) {
          return Err(ConflictingSink(name.value));
        }
        flows := flows[k := flows[k].(f := f)];
      } else {
        flows := flows + [Flow(name.value, EndpointOf(source), EndpointOf(sink), f)];
      }
      status := Ok;
    }

    /** `_build_var`, reached through the `pf_var` decorator. */
    method BuildVariable(f: Option<VarFn>, name: Option<Name>) returns (status: Status)
      requires Valid()
      modifies this
      ensures Valid()
      ensures (vars, status) == DeclareVariable(old(vars), f, name)
      ensures inventories == old(inventories) && flows == old(flows) && displays == old(displays)
    {
      if f.None? {
        return Err(MissingVarFunction);
      }
      if name.None? {
        return Err(MissingVarName);
      }
      if name.value in VarNames(vars) {
        return Err(DuplicateVariable(name.value));
      }
      vars := vars + [Variable(name.value, f.value)];
      status := Ok;
    }

    /** `pf_make_display`. */
    method MakeDisplay(name: Name, invs: Arg, fs: Arg, vs: Arg, labelText: Arg) returns (status: Status)
      requires Valid()
      modifies this
      ensures Valid()
      ensures (displays, status) == DeclareDisplay(old(displays), name, invs, fs, vs, labelText)
      ensures inventories == old(inventories) && flows == old(flows) && vars == old(vars)
    {
      if name in DisplayNames(displays) {
        return Err(DuplicateDisplay(name));
      }
      if !invs.List? {
        return Err(NotAList(Invs));
      }
      if !fs.List? {
        return Err(NotAList(Fs));
      }
      if !vs.List? {
        return Err(NotAList(Vs));
      }
      if !AllStrings(invs.items) {
        return Err(ElementNotString(Invs));
      }
      if !AllStrings(fs.items) {
        return Err(ElementNotString(Fs));
      }
      if !AllStrings(vs.items) {
        return Err(ElementNotString(Vs));
      }
      if !labelText.NoneArg? && !labelText.Str? {
        return Err(LabelNotString);
      }
      displays := displays + [Display(name, Strings(invs.items), Strings(fs.items), Strings(vs.items),
                                      if labelText.Str? then Some(labelText.s) else None)];
      status := Ok;
    }

    /** The checks `_compile_inputs` makes on one flow record: endpoints
        naming no inventory are cleared; the flow is dropped when no endpoint
        remains or its name is taken by an inventory or a variable; a kept
        flow without a callback gets one. */
    method CheckFlow(fl: Flow) returns (c: Flow, drop: bool)
      ensures c == Checked(fl, InvNames(inventories), VarNames(vars))
      ensures drop <==> Dropped(c, InvNames(inventories), VarNames(vars))
      ensures !drop ==> Admissible(c, InvNames(inventories))
    {
      c := fl;
      if c.source.Some? && c.source.value !in InvNames(inventories) {
        c := c.(source := None);
      }
      if c.sink.Some? && c.sink.value !in InvNames(inventories) {
        c := c.(sink := None);
      }
      if c.source.None? && c.sink.None? {
        drop := true;
      } else if c.name in InvNames(inventories) {
        drop := true;
      } else if c.name in VarNames(vars) {
        drop := true;
      } else {
        drop := false;
        if c.f.None? {
          c := c.(f := Some(ZeroRate));
        }
      }
    }

    /** Appends a surviving flow's name to its source's outgoing and its
        sink's incoming list. */
    method LinkFlow(c: Flow)
      requires Unique(InvNames(inventories))
      requires c.source.Some? ==> c.source.value in InvNames(inventories)
      requires c.sink.Some? ==> c.sink.value in InvNames(inventories)
      modifies this
      ensures inventories == Attach(old(inventories), c)
      ensures flows == old(flows) && vars == old(vars) && displays == old(displays)
    {
      if c.source.Some? {
        inventories := AppendOut(inventories, c.source.value, c.name);
      }
      if c.sink.Some? {
        inventories := AppendIn(inventories, c.sink.value, c.name);
      }
    }

    /** The flow loop after `j` records: those are checked in place, the
        dropped ones' names collected, the kept ones linked. */
    ghost predicate FlowsCheckedUpTo(j: nat, toDel: seq<Name>, flows0: seq<Flow>, invs0: seq<Inventory>, varNames: seq<Name>)
      reads this
    {
      var invNames := InvNames(invs0);
      && j <= |flows| == |flows0|
      && (forall i :: 0 <= i < j ==> flows[i] == Checked(flows0[i], invNames, varNames))
      && (forall i :: j <= i < |flows| ==> flows[i] == flows0[i])
      && toDel == DroppedFlowNames(flows0[..j], invNames, varNames)
      && inventories == Link(invs0, KeptFlows(flows0[..j], invNames, varNames))
    }

    /** One iteration of the flow loop. */
    method CheckNext(j: nat, toDel: seq<Name>, ghost flows0: seq<Flow>, ghost invs0: seq<Inventory>) returns (toDel': seq<Name>)
      requires Unique(InvNames(invs0)) && j < |flows|
      requires FlowsCheckedUpTo(j, toDel, flows0, invs0, VarNames(vars))
      modifies this
      ensures FlowsCheckedUpTo(j + 1, toDel', flows0, invs0, VarNames(vars))
      ensures vars == old(vars) && displays == old(displays)
    {
      ghost var invNames := InvNames(invs0);
      ghost var varNames := VarNames(vars);
      var c, drop := CheckFlow(flows[j]);
      CompileStep(flows0, invNames, varNames, j);
      if drop {
        toDel' := toDel + [c.name];
      } else {
        toDel' := toDel;
        LinkStep(invs0, KeptFlows(flows0[..j], invNames, varNames), c);
        LinkFlow(c);
      }
      flows := flows[j := c];
    }

    /** The flow loop of `_compile_inputs`: each record is checked in place,
        each surviving flow is linked, and the names to delete are collected. */
    method CheckFlows() returns (toDel: seq<Name>)
      requires Unique(InvNames(inventories))
      modifies this
      ensures flows == CheckedAll(old(flows), InvNames(old(inventories)), VarNames(vars))
      ensures inventories == Link(old(inventories), KeptFlows(old(flows), InvNames(old(inventories)), VarNames(vars)))
      ensures toDel == DroppedFlowNames(old(flows), InvNames(old(inventories)), VarNames(vars))
      ensures vars == old(vars) && displays == old(displays)
    {
      ghost var flows0 := flows;
      ghost var invs0 := inventories;
      toDel := [];
      LinkNothing(inventories);
      var j := 0;
      while j < |flows|
        invariant FlowsCheckedUpTo(j, toDel, flows0, invs0, VarNames(vars))
        invariant vars == old(vars) && displays == old(displays)
      {
        toDel := CheckNext(j, toDel, flows0, invs0);
        j := j + 1;
      }
      assert flows0[..j] == flows0;
    }

    /** `_m_model['flows'].pop(k, None)` for each collected name. */
    method PopFlows(names: seq<Name>)
      modifies this
      ensures flows == WithoutFlows(old(flows), names)
      ensures inventories == old(inventories) && vars == old(vars) && displays == old(displays)
    {
      WithoutNoFlows(flows);
      var i := 0;
      while i < |names|
        invariant 0 <= i <= |names|
        invariant flows == WithoutFlows(old(flows), names[..i])
        invariant inventories == old(inventories) && vars == old(vars) && displays == old(displays)
      {
        WithoutFlowsPop(old(flows), names[..i], names[i]);
        assert names[..i + 1] == names[..i] + [names[i]];
        flows := WithoutFlows(flows, [names[i]]);
        i := i + 1;
      }
      assert names[..i] == names;
    }

    /** The variable loop of `_compile_inputs`: collects the variables whose
        name is taken by an inventory or a flow. */
    method CheckVars() returns (toDel: seq<Name>)
      ensures toDel == DroppedVarNames(vars, InvNames(inventories), FlowNames(flows))
    {
      toDel := [];
      var j := 0;
      while j < |vars|
        invariant 0 <= j <= |vars|
        invariant toDel == DroppedVarNames(vars[..j], InvNames(inventories), FlowNames(flows))
      {
        assert vars[..j + 1][..j] == vars[..j];
        if vars[j].name in InvNames(inventories) {
          toDel := toDel + [vars[j].name];
        } else if vars[j].name in FlowNames(flows) {
          toDel := toDel + [vars[j].name];
        }
        j := j + 1;
      }
      assert vars[..j] == vars;
    }

    /** `_m_model['vars'].pop(k, None)` for each collected name. */
    method PopVars(names: seq<Name>)
      modifies this
      ensures vars == WithoutVars(old(vars), names)
      ensures inventories == old(inventories) && flows == old(flows) && displays == old(displays)
    {
      WithoutNoVars(vars);
      var i := 0;
      while i < |names|
        invariant 0 <= i <= |names|
        invariant vars == WithoutVars(old(vars), names[..i])
        invariant inventories == old(inventories) && flows == old(flows) && displays == old(displays)
      {
        WithoutVarsPop(old(vars), names[..i], names[i]);
        assert names[..i + 1] == names[..i] + [names[i]];
        vars := WithoutVars(vars, [names[i]]);
        i := i + 1;
      }
      assert names[..i] == names;
    }

    /** `_compile_inputs`. The names it warns about and deletes are
        returned. On a registry not linked before, the result is one the
        stepper can run. */
    method Compile() returns (droppedFlows: seq<Name>, droppedVars: seq<Name>)
      requires Valid()
      modifies this
      ensures Valid()
      ensures (inventories, flows, vars) == Compilation(old(inventories), old(flows), old(vars))
      ensures droppedFlows == DroppedFlowNames(old(flows), InvNames(old(inventories)), VarNames(old(vars)))
      ensures droppedVars == DroppedVarNames(old(vars), InvNames(old(inventories)), FlowNames(flows))
      ensures displays == old(displays)
      ensures Unlinked(old(inventories)) ==> Compiled(inventories, flows, vars)
    {
      droppedFlows := CheckFlows();
      DropLeavesKept(old(flows), InvNames(old(inventories)), VarNames(vars));
      PopFlows(droppedFlows);
      droppedVars := CheckVars();
      DropLeavesKeptVars(vars, InvNames(inventories), FlowNames(flows));
      PopVars(droppedVars);
      if Unlinked(old(inventories)) {
        CompileYieldsCompiled(old(inventories), old(flows), old(vars));
      }
    }

    /** The part of `pf_run_model` after the validation: computes the
        number of rows, allocates one series per entity and steps from row 0
        to the last row. A zero step raises in the division; a negative row
        count raises when the first series is allocated, so only when the
        registry holds some entity; a raising callback ends the run. */
    method Simulate(start: real, stop: real, step: real)
      returns (status: RunStatus, Is: array2<real>, Fs: array2<real>, Vs: array2<real>)
      ensures status == ZeroStep <==> step == 0.0
      ensures step != 0.0 ==>
                var N := Series.StepCount(start, stop, step).value;
                (status == NegativeLength <==> N < 0 && (inventories != [] || flows != [] || vars != []))
      ensures status == Completed || status == CallbackRaised ==>
                var N := Series.StepCount(start, stop, step).value;
                var n := if N < 0 then 0 else N;
                && fresh(Is) && fresh(Fs) && fresh(Vs)
                && Is.Length0 == |inventories| && Fs.Length0 == |flows| && Vs.Length0 == |vars|
                && Is.Length1 == n && Fs.Length1 == n && Vs.Length1 == n
                && (status == Completed <==> n == 0 || RowAt(inventories, flows, vars, start, step, n - 1).Returned?)
                && (status == Completed ==> forall T :: 0 <= T < n ==>
                      RowAt(inventories, flows, vars, start, step, T).Returned?
                      && Series.RowHolds(Is, Fs, Vs, T, RowAt(inventories, flows, vars, start, step, T).value))
    {
      var count := Series.StepCount(start, stop, step);
      if count.None? || (count.value < 0 && (inventories != [] || flows != [] || vars != [])) {
        Is, Fs, Vs := new real[0, 0], new real[0, 0], new real[0, 0];
        status := if count.None? then ZeroStep else NegativeLength;
        return;
      }
      var N := count.value;
      var n: nat := if N < 0 then 0 else N;
      var ok;
      ok, Is, Fs, Vs := Series.Run(inventories, flows, vars, start, step, n);
      status := if ok then Completed else CallbackRaised;
    }

    /** `pf_run_model`: validates and links the registry, then simulates
        it. The run's results are those of `Simulate` on the compiled
        registry. */
    method RunModel(start: real, stop: real, step: real)
      returns (status: RunStatus, Is: array2<real>, Fs: array2<real>, Vs: array2<real>)
      requires Valid()
      modifies this
      ensures Valid()
      ensures (inventories, flows, vars) == Compilation(old(inventories), old(flows), old(vars))
      ensures displays == old(displays)
      ensures Unlinked(old(inventories)) ==> Compiled(inventories, flows, vars)
      ensures status == ZeroStep <==> step == 0.0
      ensures step != 0.0 ==>
                var N := Series.StepCount(start, stop, step).value;
                (status == NegativeLength <==> N < 0 && (inventories != [] || flows != [] || vars != []))
      ensures status == Completed || status == CallbackRaised ==>
                var N := Series.StepCount(start, stop, step).value;
                var n := if N < 0 then 0 else N;
                && Is.Length0 == |inventories| && Fs.Length0 == |flows| && Vs.Length0 == |vars|
                && Is.Length1 == n && Fs.Length1 == n && Vs.Length1 == n
                && (status == Completed <==> n == 0 || RowAt(inventories, flows, vars, start, step, n - 1).Returned?)
                && (status == Completed ==> forall T :: 0 <= T < n ==>
                      RowAt(inventories, flows, vars, start, step, T).Returned?
                      && Series.RowHolds(Is, Fs, Vs, T, RowAt(inventories, flows, vars, start, step, T).value))
    {
      var _, _ := Compile();
      status, Is, Fs, Vs := Simulate(start, stop, step);
    }
  }

  /** A registry holding one inventory still holds it after the reset as
      written. */
  method ResetKeepsEntries() returns (m: Model)
    ensures InvNames(m.inventories) == ["a"]
  {
    m := new Model();
    var _ := m.BuildInventory("a", NoneArg, 0.0);
    m.ResetAsWritten();
    assert InvNames(m.inventories) == ["a"];
  }
}
