/** What each declaration call does to the ordered dictionaries of the model
    registry: the new dictionary and whether the call raised. */
module Registry {
  import opened Entities

  /** `_build_inven` refuses a truthy nickname that is not a string. */
  predicate NicknameRejected(nickname: Arg) {
    Truthy(nickname) && !nickname.Str?
  }

  /** `_build_inven`: register one inventory with empty flow lists. */
  function RegisterInventory(invs: seq<Inventory>, name: Name, nickname: Arg, value: real): (r: (seq<Inventory>, Status))
    ensures r.1.Err? ==> r.0 == invs
    ensures r.1 == Err(NicknameNotString) <==> NicknameRejected(nickname)
    ensures r.1 == Err(DuplicateInventory(name)) <==> !NicknameRejected(nickname) && name in InvNames(invs)
    ensures r.1.Ok? ==> r.0 == invs + [Inventory(name, nickname, value, [], [])]
    ensures Unique(InvNames(invs)) ==> Unique(InvNames(r.0))
  {
    if NicknameRejected(nickname) then (invs, Err(NicknameNotString))
    else if name in InvNames(invs) then (invs, Err(DuplicateInventory(name)))
    else (invs + [Inventory(name, nickname, value, [], [])], Ok)
  }

  /** The initial values handed to `pf_make_inventory` are numbers. */
  predicate NumericValues(name: Arg, value: Arg) {
    && (name.Str? ==> value.Num?)
    && (name.List? && value.List? ==> forall i :: 0 <= i < |value.items| ==> value.items[i].Num?)
  }

  /** The initial values of a list of numbers. */
  function Reals(items: seq<Arg>): (r: seq<real>)
    requires forall i :: 0 <= i < |items| ==> items[i].Num?
    ensures |r| == |items| && forall i :: 0 <= i < |items| ==> r[i] == items[i].x
  {
    seq(|items|, i requires 0 <= i < |items| => items[i].x)
  }

  /** The loop of `pf_make_inventory` over a list of names: each element
      must be a string and is registered in turn; the first failure stops
      the loop, leaving the earlier elements registered. */
  function RegisterEach(invs: seq<Inventory>, names: seq<Arg>, values: seq<real>, nickname: Arg): (r: (seq<Inventory>, Status))
    requires |names| == |values|
    ensures |invs| <= |r.0| <= |invs| + |names|
    ensures r.0[..|invs|] == invs
    ensures forall j :: 0 <= j < |r.0| - |invs| ==>
              names[j].Str? && r.0[|invs| + j] == Inventory(names[j].s, nickname, values[j], [], [])
    ensures r.1.Ok? <==> |r.0| == |invs| + |names|
    ensures Unique(InvNames(invs)) ==> Unique(InvNames(r.0))
    decreases |names|
  {
    if names == [] then (invs, Ok)
    else
      var n := |names| - 1;
      var prev := RegisterEach(invs, names[..n], values[..n], nickname);
      PrefixAt(names, values, n);
      if prev.1.Err? then prev
      else if !names[n].Str? then (prev.0, Err(NameNotString))
      else RegisterInventory(prev.0, names[n].s, nickname, values[n])
  }

  lemma {:induction false} PrefixAt(names: seq<Arg>, values: seq<real>, n: nat)
    requires n <= |names| && n <= |values|
    ensures forall j :: 0 <= j < n ==> names[..n][j] == names[j] && values[..n][j] == values[j]
  {
  }

  /** One more element of the loop, after elements that all registered. */
  lemma {:induction false} RegisterEachStep(invs: seq<Inventory>, names: seq<Arg>, values: seq<real>, nickname: Arg, i: nat)
    requires |names| == |values| && i < |names|
    requires RegisterEach(invs, names[..i], values[..i], nickname).1.Ok?
    ensures var prev := RegisterEach(invs, names[..i], values[..i], nickname).0;
            RegisterEach(invs, names[..i + 1], values[..i + 1], nickname)
            == if !names[i].Str? then (prev, Err(NameNotString))
               else RegisterInventory(prev, names[i].s, nickname, values[i])
  {
    assert names[..i + 1][..i] == names[..i];
    assert values[..i + 1][..i] == values[..i];
  }

  /** A failed prefix stays failed when the loop is given one more element. */
  lemma {:induction false} RegisterEachErrStep(invs: seq<Inventory>, names: seq<Arg>, values: seq<real>, nickname: Arg, m: nat)
    requires |names| == |values| && m < |names|
    requires RegisterEach(invs, names[..m], values[..m], nickname).1.Err?
    ensures RegisterEach(invs, names[..m + 1], values[..m + 1], nickname) == RegisterEach(invs, names[..m], values[..m], nickname)
  {
    assert names[..m + 1][..m] == names[..m];
    assert values[..m + 1][..m] == values[..m];
  }

  /** The first failure of the loop is its result: later elements are
      never looked at. */
  lemma {:induction false} RegisterEachStops(invs: seq<Inventory>, names: seq<Arg>, values: seq<real>, nickname: Arg, i: nat)
    requires |names| == |values| && i <= |names|
    requires RegisterEach(invs, names[..i], values[..i], nickname).1.Err?
    ensures RegisterEach(invs, names, values, nickname) == RegisterEach(invs, names[..i], values[..i], nickname)
    decreases |names| - i
  {
    if i < |names| {
      RegisterEachErrStep(invs, names, values, nickname, i);
      RegisterEachStops(invs, names, values, nickname, i + 1);
    } else {
      assert names[..|names|] == names;
      assert values[..|values|] == values;
    }
  }

  /** `pf_make_inventory`: a list of names needs a list of values of the
      same length, checked before anything is registered; a string name
      registers one inventory; any other name registers nothing. */
  function MakeInventories(invs: seq<Inventory>, name: Arg, value: Arg, nickname: Arg): (r: (seq<Inventory>, Status))
    requires NumericValues(name, value)
    ensures name.List? && !value.List? ==> r == (invs, Err(ValuesNotList))
    ensures name.List? && value.List? && |value.items| != |name.items| ==> r == (invs, Err(LengthMismatch))
    ensures !name.List? && !name.Str? ==> r == (invs, Ok)
    ensures name.Str? ==> r == RegisterInventory(invs, name.s, nickname, value.x)
    ensures name.List? && value.List? && |value.items| == |name.items| ==>
              r == RegisterEach(invs, name.items, Reals(value.items), nickname)
    ensures Unique(InvNames(invs)) ==> Unique(InvNames(r.0))
  {
    match name
    case List(items) =>
      if !value.List? then (invs, Err(ValuesNotList))
      else if |value.items| != |items| then (invs, Err(LengthMismatch))
      else RegisterEach(invs, items, Reals(value.items), nickname)
    case Str(s) => RegisterInventory(invs, s, nickname, value.x)
    case _ => (invs, Ok)
  }

  /** Inventories are registered with empty flow lists: a registry in
      which no inventory is linked yet stays so. */
  lemma {:induction false} MakeKeepsUnlinked(invs: seq<Inventory>, name: Arg, value: Arg, nickname: Arg)
    requires NumericValues(name, value) && Unlinked(invs)
    ensures Unlinked(MakeInventories(invs, name, value, nickname).0)
  {
    var r := MakeInventories(invs, name, value, nickname).0;
    forall k | 0 <= k < |r|
      ensures r[k].outs == [] && r[k].ins == []
    {
      match name
      case Str(s) =>
        if k >= |invs| {
          assert r == invs + [Inventory(s, nickname, value.x, [], [])];
        }
      case List(items) =>
        if value.List? && |value.items| == |items| {
          assert r[..|invs|] == invs;
          if k < |invs| {
            assert r[k] == invs[k];
          } else {
            var j := k - |invs|;
            assert r[|invs| + j] == Inventory(items[j].s, nickname, Reals(value.items)[j], [], []);
          }
        }
      case _ =>
    }
  }

  /** `_build_flow` refuses a source or sink that is neither None nor a string. */
  predicate EndpointRejected(a: Arg) {
    !a.NoneArg? && !a.Str?
  }

  function EndpointOf(a: Arg): Option<Name> {
    if a.Str? then Some(a.s) else None
  }

  /** `_build_flow`: declare a new flow, or redeclare an existing one with
      the same endpoints, which replaces its callback only. */
  function DeclareFlow(flows: seq<Flow>, f: Option<FlowFn>, name: Option<Name>, source: Arg, sink: Arg): (r: (seq<Flow>, Status))
    requires Unique(FlowNames(flows))
    ensures Unique(FlowNames(r.0))
    ensures r.1.Err? ==> r.0 == flows
    ensures name.None? ==> r.1 == Err(MissingFlowName)
    ensures name.Some? && EndpointRejected(source) ==> r.1 == Err(SourceNotString)
    ensures name.Some? && !EndpointRejected(source) && EndpointRejected(sink) ==> r.1 == Err(SinkNotString)
    ensures name.Some? && !EndpointRejected(source) && !EndpointRejected(sink) && name.value in FlowNames(flows) ==>
              var old_ := flows[IndexOf(FlowNames(flows), name.value)];
              && (r.1.Ok? <==> old_.source == EndpointOf(source) && old_.sink == EndpointOf(sink))
              && (old_.source != EndpointOf(source) ==> r.1 == Err(ConflictingSource(name.value)))
              && (old_.source == EndpointOf(source) && old_.sink != EndpointOf(sink) ==> r.1 == Err(ConflictingSink(name.value)))
              && (r.1.Ok? ==>
                    && |r.0| == |flows|
                    && forall i :: 0 <= i < |flows| ==>
                         r.0[i] == if flows[i].name == name.value then flows[i].(f := f) else flows[i])
    ensures name.Some? && !EndpointRejected(source) && !EndpointRejected(sink) && name.value !in FlowNames(flows) ==>
              r == (flows + [Flow(name.value, EndpointOf(source), EndpointOf(sink), f)], Ok)
  {
    if name.None? then (flows, Err(MissingFlowName))
    else if EndpointRejected(source) then (flows, Err(SourceNotString))
    else if EndpointRejected(sink) then (flows, Err(SinkNotString))
    else if name.value in FlowNames(flows) then
      var k := IndexOf(FlowNames(flows), name.value);
      if flows[k].source != EndpointOf(source) then (flows, Err(ConflictingSource(name.value)))
      else if flows[k].sink != EndpointOf(sink) then (flows, Err(ConflictingSink(name.value)))
      else (flows[k := flows[k].(f := f)], Ok)
    else
      (flows + [Flow(name.value, EndpointOf(source), EndpointOf(sink), f)], Ok)
  }

  /** `_build_var`: a callback and a name not yet used by a variable are
      required; the variable is then appended. */
  function DeclareVariable(vars: seq<Variable>, f: Option<VarFn>, name: Option<Name>): (r: (seq<Variable>, Status))
    ensures r.1.Err? ==> r.0 == vars
    ensures f.None? ==> r.1 == Err(MissingVarFunction)
    ensures f.Some? && name.None? ==> r.1 == Err(MissingVarName)
    ensures f.Some? && name.Some? && name.value in VarNames(vars) ==> r.1 == Err(DuplicateVariable(name.value))
    ensures r.1.Ok? <==> f.Some? && name.Some? && name.value !in VarNames(vars)
    ensures r.1.Ok? ==> r.0 == vars + [Variable(name.value, f.value)]
    ensures Unique(VarNames(vars)) ==> Unique(VarNames(r.0))
  {
    if f.None? then (vars, Err(MissingVarFunction))
    else if name.None? then (vars, Err(MissingVarName))
    else if name.value in VarNames(vars) then (vars, Err(DuplicateVariable(name.value)))
    else (vars + [Variable(name.value, f.value)], Ok)
  }

  predicate AllStrings(items: seq<Arg>) {
    forall i :: 0 <= i < |items| ==> items[i].Str?
  }

  function Strings(items: seq<Arg>): (r: seq<string>)
    requires AllStrings(items)
    ensures |r| == |items| && forall i :: 0 <= i < |items| ==> r[i] == items[i].s
  {
    seq(|items|, i requires 0 <= i < |items| => items[i].s)
  }

  /** Everything `pf_make_display` demands of its arguments. */
  predicate DisplayAccepted(displays: seq<Display>, name: Name, invs: Arg, fs: Arg, vs: Arg, labelText: Arg) {
    && name !in DisplayNames(displays)
    && invs.List? && fs.List? && vs.List?
    && AllStrings(invs.items) && AllStrings(fs.items) && AllStrings(vs.items)
    && (labelText.NoneArg? || labelText.Str?)
  }

  /** `pf_make_display`: the checks run in the order name, the three list
      types, the three element types, the label; the first failure raises. */
  function DeclareDisplay(displays: seq<Display>, name: Name, invs: Arg, fs: Arg, vs: Arg, labelText: Arg): (r: (seq<Display>, Status))
    ensures r.1.Err? ==> r.0 == displays
    ensures r.1.Ok? <==> DisplayAccepted(displays, name, invs, fs, vs, labelText)
    ensures name in DisplayNames(displays) ==> r.1 == Err(DuplicateDisplay(name))
    ensures name !in DisplayNames(displays) && !invs.List? ==> r.1 == Err(NotAList(Invs))
    ensures name !in DisplayNames(displays) && invs.List? ==>
              && (!fs.List? ==> r.1 == Err(NotAList(Fs)))
              && (fs.List? && !vs.List? ==> r.1 == Err(NotAList(Vs)))
    ensures name !in DisplayNames(displays) && invs.List? && fs.List? && vs.List? ==>
              && (!AllStrings(invs.items) ==> r.1 == Err(ElementNotString(Invs)))
              && (AllStrings(invs.items) && !AllStrings(fs.items) ==> r.1 == Err(ElementNotString(Fs)))
              && (AllStrings(invs.items) && AllStrings(fs.items) && !AllStrings(vs.items) ==> r.1 == Err(ElementNotString(Vs)))
              && ((AllStrings(invs.items) && AllStrings(fs.items) && AllStrings(vs.items)
                   && !labelText.NoneArg? && !labelText.Str?) ==> r.1 == Err(LabelNotString))
    ensures r.1 == Err(LabelNotString) ==> !labelText.NoneArg? && !labelText.Str?
    ensures r.1.Ok? ==>
              r.0 == displays + [Display(name, Strings(invs.items), Strings(fs.items), Strings(vs.items),
                                         if labelText.Str? then Some(labelText.s) else None)]
    ensures Unique(DisplayNames(displays)) ==> Unique(DisplayNames(r.0))
  {
    if name in DisplayNames(displays) then (displays, Err(DuplicateDisplay(name)))
    else if !invs.List? then (displays, Err(NotAList(Invs)))
    else if !fs.List? then (displays, Err(NotAList(Fs)))
    else if !vs.List? then (displays, Err(NotAList(Vs)))
    else if !AllStrings(invs.items) then (displays, Err(ElementNotString(Invs)))
    else if !AllStrings(fs.items) then (displays, Err(ElementNotString(Fs)))
    else if !AllStrings(vs.items) then (displays, Err(ElementNotString(Vs)))
    else if !labelText.NoneArg? && !labelText.Str? then (displays, Err(LabelNotString))
    else
      (displays + [Display(name, Strings(invs.items), Strings(fs.items), Strings(vs.items),
                           if labelText.Str? then Some(labelText.s) else None)], Ok)
  }
}
