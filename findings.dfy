/** Places where `pyflowtool.py` as written departs from what it evidently
    means to do. Each is modelled as written, with a lemma exhibiting the
    departure; the rest of the model uses the corrected behaviour. */
module Findings {
  import opened Entities
  import opened Registry
  import opened Linker
  import opened Stepper

  // ---------------------------------------------------------------------
  // The fallback callback takes no arguments.

  /** `_empty_func` takes no parameters; the stepper calls every flow
      callback as `f(t, model)`, so calling it raises a TypeError. */
  function EmptyFunc(t: real, ctx: Context): (o: Outcome<Option<real>>)
    ensures !o.Returned?
  {
    Raised
  }

  /** The check of one flow as written: the fallback installed for a kept
      flow without a callback is `_empty_func`. */
  function CheckedAsWritten(fl: Flow, invNames: seq<Name>, varNames: seq<Name>): (c: Flow)
    ensures c.name == fl.name && c.source == Resolve(fl.source, invNames) && c.sink == Resolve(fl.sink, invNames)
    ensures !Dropped(c, invNames, varNames) && fl.f.None? ==> c.f == Some(EmptyFunc)
    ensures Dropped(c, invNames, varNames) || fl.f.Some? ==> c.f == fl.f
  {
    var c := Cleared(fl, invNames);
    if !Dropped(c, invNames, varNames) && c.f.None? then c.(f := Some(EmptyFunc)) else c
  }

  /** A step of a registry holding a flow whose callback is `_empty_func`
      raises, whatever the row. */
  lemma {:induction false} EmptyFuncStepRaises(invs: seq<Inventory>, flows: seq<Flow>, vars: seq<Variable>,
                                               t: real, step: real, row: Row, j: nat)
    requires Shaped(row, invs, flows, vars) && j < |flows| && flows[j].f == Some(EmptyFunc)
    ensures NextRow(invs, flows, vars, t, step, row).Raised?
  {
    var vr := EvalVars(vars, t, RowContext(invs, flows, vars, row));
    if vr.Returned? {
      EvalFlowsSpec(flows, t, vr.value.1);
      assert flows[j].f.value(t, vr.value.1) == Raised;
    }
  }

  /** Such a registry raises at its first step, and so in every later row:
      a run of more than one row never completes. */
  lemma {:induction false} EmptyFuncRunRaises(invs: seq<Inventory>, flows: seq<Flow>, vars: seq<Variable>,
                                              start: real, step: real, j: nat, T: nat)
    requires j < |flows| && flows[j].f == Some(EmptyFunc) && T >= 1
    ensures RowAt(invs, flows, vars, start, step, T).Raised?
    decreases T
  {
    if T == 1 {
      EmptyFuncStepRaises(invs, flows, vars, TimeAt(start, step, 0), step, InitialRow(invs, flows, vars), j);
    } else {
      EmptyFuncRunRaises(invs, flows, vars, start, step, j, T - 1);
    }
  }

  /** As corrected: a kept flow declared without a callback gets one that
      returns rate zero whatever it is given, so it never makes a step
      raise. */
  lemma {:induction false} MissingCallbackRateZero(fl: Flow, invNames: seq<Name>, varNames: seq<Name>)
    requires fl.f.None? && !Dropped(Cleared(fl, invNames), invNames, varNames)
    ensures Checked(fl, invNames, varNames).f.Some?
    ensures forall t: real, ctx: Context ::
              Checked(fl, invNames, varNames).f.value(t, ctx) == Returned(Some(0.0))
  {
  }

  // ---------------------------------------------------------------------
  // The endpoints are tested for truthiness when linking.

  /** The two appends as written: an endpoint is tested for truthiness, so
      an inventory named by the empty string is never appended to. */
  function AttachAsWritten(invs: seq<Inventory>, c: Flow): (r: seq<Inventory>)
    requires c.source.Some? ==> c.source.value in InvNames(invs)
    requires c.sink.Some? ==> c.sink.value in InvNames(invs)
    ensures InvNames(r) == InvNames(invs)
    ensures c.source != Some("") && c.sink != Some("") ==> r == Attach(invs, c)
  {
    var withOut := if c.source.Some? && c.source.value != "" then AppendOut(invs, c.source.value, c.name) else invs;
    if c.sink.Some? && c.sink.value != "" then AppendIn(withOut, c.sink.value, c.name) else withOut
  }

  /** Linking the surviving flows one at a time, as written. */
  function LinkAsWritten(invs: seq<Inventory>, kept: seq<Flow>): (r: seq<Inventory>)
    requires forall j :: 0 <= j < |kept| ==> Admissible(kept[j], InvNames(invs))
    ensures InvNames(r) == InvNames(invs)
    decreases |kept|
  {
    if kept == [] then invs
    else
      var n := |kept| - 1;
      assert forall j :: 0 <= j < n ==> kept[..n][j] == kept[j];
      var prev := LinkAsWritten(invs, kept[..n]);
      assert Admissible(kept[n], InvNames(prev));
      AttachAsWritten(prev, kept[n])
  }

  /** The truthiness test matters only for the empty name: when no
      surviving flow names "" as an endpoint, linking as written is linking
      as intended. */
  lemma {:induction false} LinkAgreesWithoutEmptyName(invs: seq<Inventory>, kept: seq<Flow>)
    requires Unique(InvNames(invs))
    requires forall j :: 0 <= j < |kept| ==> Admissible(kept[j], InvNames(invs))
    requires forall j :: 0 <= j < |kept| ==> kept[j].source != Some("") && kept[j].sink != Some("")
    ensures LinkAsWritten(invs, kept) == Link(invs, kept)
    decreases |kept|
  {
    if kept == [] {
      LinkNothing(invs);
    } else {
      var n := |kept| - 1;
      assert kept[..n] + [kept[n]] == kept;
      assert forall j :: 0 <= j < n ==> kept[..n][j] == kept[j];
      LinkAgreesWithoutEmptyName(invs, kept[..n]);
      var prev := Link(invs, kept[..n]);
      assert Admissible(kept[n], InvNames(prev));
      assert LinkAsWritten(invs, kept) == AttachAsWritten(prev, kept[n]) == Attach(prev, kept[n]);
      LinkStep(invs, kept[..n], kept[n]);
    }
  }

  lemma {:induction false} AdmissiblePrefix(invNames: seq<Name>, kept: seq<Flow>, n: nat)
    requires n <= |kept| && forall j :: 0 <= j < |kept| ==> Admissible(kept[j], invNames)
    ensures forall j :: 0 <= j < n ==> Admissible(kept[..n][j], invNames)
  {
  }

  /** The appends as written never touch the inventory named "". */
  lemma {:induction false} AttachSkipsEmptyName(invs: seq<Inventory>, c: Flow, k: nat)
    requires Unique(InvNames(invs)) && k < |invs| && invs[k].name == ""
    requires c.source.Some? ==> c.source.value in InvNames(invs)
    requires c.sink.Some? ==> c.sink.value in InvNames(invs)
    ensures AttachAsWritten(invs, c)[k] == invs[k]
  {
    var withOut := if c.source.Some? && c.source.value != "" then AppendOut(invs, c.source.value, c.name) else invs;
    assert withOut[k] == invs[k];
  }

  /** As written, no surviving flow is ever listed by the inventory named
      "": it keeps the lists it had. */
  lemma {:induction false} EmptyNameNeverLinked(invs: seq<Inventory>, kept: seq<Flow>, k: nat)
    requires Unique(InvNames(invs)) && k < |invs| && invs[k].name == ""
    requires forall j :: 0 <= j < |kept| ==> Admissible(kept[j], InvNames(invs))
    ensures LinkAsWritten(invs, kept)[k] == invs[k]
    decreases |kept|
  {
    if kept != [] {
      var n := |kept| - 1;
      AdmissiblePrefix(InvNames(invs), kept, n);
      EmptyNameNeverLinked(invs, kept[..n], k);
      var prev := LinkAsWritten(invs, kept[..n]);
      AttachSkipsEmptyName(prev, kept[n], k);
    }
  }

  /** An unlinked inventory named "" drained by a surviving flow: linking
      as intended lists the flow as the inventory's outgoing flow, linking
      as written does not, and in every row a run of the registry as
      written reaches, the inventory still holds its initial value however
      the flow drains it. */
  lemma {:induction false} EmptyNameNotDrained(invs: seq<Inventory>, kept: seq<Flow>, vars: seq<Variable>,
                                               start: real, step: real, T: nat, k: nat, j: nat)
    requires Unique(InvNames(invs)) && Unlinked(invs) && k < |invs| && invs[k].name == ""
    requires Unique(FlowNames(kept)) && forall i :: 0 <= i < |kept| ==> Admissible(kept[i], InvNames(invs))
    requires j < |kept| && kept[j].source == Some("")
    ensures kept[j].name in Link(invs, kept)[k].outs
    ensures LinkAsWritten(invs, kept)[k].outs == []
    ensures RowAt(LinkAsWritten(invs, kept), kept, vars, start, step, T).Returned? ==>
              RowAt(LinkAsWritten(invs, kept), kept, vars, start, step, T).value.inv[k] == invs[k].value
  {
    LinksExact(kept, "");
    assert [] + Outgoing(kept, "") == Outgoing(kept, "");
    EmptyNameNeverLinked(invs, kept, k);
    var asWritten := LinkAsWritten(invs, kept);
    if RowAt(asWritten, kept, vars, start, step, T).Returned? {
      UnlinkedInventoryConstant(asWritten, kept, vars, start, step, T, k);
    }
  }

  // ---------------------------------------------------------------------
  // The lengths of the two lists are compared by identity.

  /** `len(value) is not len(name)`: CPython shares one object per integer
      only from -5 to 256, so two equal lengths above 256 are two distinct
      objects and compare as "not the same". */
  predicate LengthsDifferAsWritten(a: nat, b: nat)
    ensures a <= 256 ==> (LengthsDifferAsWritten(a, b) <==> a != b)
    ensures a == b > 256 ==> LengthsDifferAsWritten(a, b)
  {
    a != b || a > 256
  }

  /** `pf_make_inventory` as written. */
  function MakeInventoriesAsWritten(invs: seq<Inventory>, name: Arg, value: Arg, nickname: Arg): (r: (seq<Inventory>, Status))
    requires NumericValues(name, value)
    ensures name.List? && value.List? && |value.items| == |name.items| > 256 ==> r == (invs, Err(LengthMismatch))
    ensures !(name.List? && value.List? && |name.items| > 256) ==> r == MakeInventories(invs, name, value, nickname)
  {
    match name
    case List(items) =>
      if !value.List? then (invs, Err(ValuesNotList))
      else if LengthsDifferAsWritten(|value.items|, |items|) then (invs, Err(LengthMismatch))
      else RegisterEach(invs, items, Reals(value.items), nickname)
    case Str(s) => RegisterInventory(invs, s, nickname, value.x)
    case _ => (invs, Ok)
  }

  /** Registering a list never fails on the length check. */
  lemma {:induction false} RegisterEachNoLengthError(invs: seq<Inventory>, names: seq<Arg>, values: seq<real>, nickname: Arg)
    requires |names| == |values|
    ensures RegisterEach(invs, names, values, nickname).1 != Err(LengthMismatch)
    decreases |names|
  {
    if names != [] {
      var n := |names| - 1;
      RegisterEachNoLengthError(invs, names[..n], values[..n], nickname);
    }
  }

  /** Equal-length lists of more than 256 names are refused as written,
      while as intended the length check passes and the names are
      registered one by one. */
  lemma {:induction false} LongListsRefused(invs: seq<Inventory>, name: Arg, value: Arg, nickname: Arg)
    requires NumericValues(name, value)
    requires name.List? && value.List? && |name.items| == |value.items| > 256
    ensures MakeInventoriesAsWritten(invs, name, value, nickname) == (invs, Err(LengthMismatch))
    ensures MakeInventories(invs, name, value, nickname).1 != Err(LengthMismatch)
  {
    RegisterEachNoLengthError(invs, name.items, Reals(value.items), nickname);
  }
}
