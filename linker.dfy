/** What `_compile_inputs` makes of the registry: unknown flow endpoints are
    cleared, flows without an endpoint or with a name taken by an inventory
    or a variable are dropped, surviving flows are linked into their
    inventories' outgoing and incoming lists, and variables whose name is
    taken by an inventory or a surviving flow are dropped. */
module Linker {
  import opened Entities

  /** The callback installed for a flow declared without one: rate zero. */
  const ZeroRate: FlowFn := (t: real, ctx: Context) => Returned(Some(0.0))

  /** An endpoint that names no registered inventory is cleared. */
  function Resolve(e: Option<Name>, invNames: seq<Name>): (r: Option<Name>)
    ensures r.Some? <==> e.Some? && e.value in invNames
    ensures r.Some? ==> r == e
  {
    if e.Some? && e.value !in invNames then None else e
  }

  /** Only the endpoints change: each survives exactly when it names a
      registered inventory. */
  function Cleared(fl: Flow, invNames: seq<Name>): (c: Flow)
    ensures c.name == fl.name && c.f == fl.f
    ensures c.source.Some? <==> fl.source.Some? && fl.source.value in invNames
    ensures c.sink.Some? <==> fl.sink.Some? && fl.sink.value in invNames
    ensures c.source.Some? ==> c.source == fl.source
    ensures c.sink.Some? ==> c.sink == fl.sink
  {
    fl.(source := Resolve(fl.source, invNames), sink := Resolve(fl.sink, invNames))
  }

  /** Why a flow, its unknown endpoints cleared, is dropped. */
  predicate Dropped(c: Flow, invNames: seq<Name>, varNames: seq<Name>)
    ensures !Dropped(c, invNames, varNames) <==>
              (c.source.Some? || c.sink.Some?) && c.name !in invNames && c.name !in varNames
  {
    (c.source.None? && c.sink.None?) || c.name in invNames || c.name in varNames
  }

  /** The record as the check leaves it: endpoints cleared and, when it
      survives without a callback, the zero-rate callback installed. */
  function Checked(fl: Flow, invNames: seq<Name>, varNames: seq<Name>): (c: Flow)
    ensures c.name == fl.name
    ensures c.source == Resolve(fl.source, invNames) && c.sink == Resolve(fl.sink, invNames)
    ensures fl.f.Some? ==> c.f == fl.f
    ensures !Dropped(Cleared(fl, invNames), invNames, varNames) ==> c.f.Some?
  {
    var c := Cleared(fl, invNames);
    if !Dropped(c, invNames, varNames) && c.f.None? then c.(f := Some(ZeroRate)) else c
  }

  function CheckedAll(flows: seq<Flow>, invNames: seq<Name>, varNames: seq<Name>): (r: seq<Flow>)
    ensures |r| == |flows| && forall j :: 0 <= j < |flows| ==> r[j] == Checked(flows[j], invNames, varNames)
  {
    seq(|flows|, j requires 0 <= j < |flows| => Checked(flows[j], invNames, varNames))
  }

  /** A flow the stepper can evaluate and link: some endpoint, every
      endpoint a registered inventory, a callback. */
  predicate Admissible(fl: Flow, invNames: seq<Name>) {
    && (fl.source.Some? || fl.sink.Some?)
    && (fl.source.Some? ==> fl.source.value in invNames)
    && (fl.sink.Some? ==> fl.sink.value in invNames)
    && fl.f.Some?
  }

  /** The flows that survive, in registration order. */
  function KeptFlows(flows: seq<Flow>, invNames: seq<Name>, varNames: seq<Name>): (r: seq<Flow>)
    ensures |r| <= |flows|
    ensures forall j :: 0 <= j < |r| ==>
              Admissible(r[j], invNames) && r[j].name !in invNames && r[j].name !in varNames
    ensures forall j :: 0 <= j < |r| ==> r[j].name in FlowNames(flows)
    ensures Unique(FlowNames(flows)) ==> Unique(FlowNames(r))
    decreases |flows|
  {
    if flows == [] then []
    else
      var n := |flows| - 1;
      var pre := KeptFlows(flows[..n], invNames, varNames);
      assert FlowNames(flows[..n]) == FlowNames(flows)[..n];
      if Dropped(Cleared(flows[n], invNames), invNames, varNames) then pre
      else pre + [Checked(flows[n], invNames, varNames)]
  }

  /** The names `_compile_inputs` collects for deletion, in order. */
  function DroppedFlowNames(flows: seq<Flow>, invNames: seq<Name>, varNames: seq<Name>): (r: seq<Name>)
    ensures forall n :: n in r ==> n in FlowNames(flows)
    decreases |flows|
  {
    if flows == [] then []
    else
      var n := |flows| - 1;
      assert FlowNames(flows[..n]) == FlowNames(flows)[..n];
      DroppedFlowNames(flows[..n], invNames, varNames)
        + if Dropped(Cleared(flows[n], invNames), invNames, varNames) then [flows[n].name] else []
  }

  /** Popping each listed name from the ordered dictionary of flows. */
  function WithoutFlows(s: seq<Flow>, drop: seq<Name>): (r: seq<Flow>)
    ensures |r| <= |s|
    decreases |s|
  {
    if s == [] then []
    else
      var n := |s| - 1;
      WithoutFlows(s[..n], drop) + if s[n].name in drop then [] else [s[n]]
  }

  /** Exactly the records whose name is not listed remain. */
  lemma {:induction false} WithoutFlowsExact(s: seq<Flow>, drop: seq<Name>)
    ensures forall x :: x in WithoutFlows(s, drop) ==> x in s && x.name !in drop
    ensures forall i :: 0 <= i < |s| && s[i].name !in drop ==> s[i] in WithoutFlows(s, drop)
    decreases |s|
  {
    if s != [] {
      var n := |s| - 1;
      WithoutFlowsExact(s[..n], drop);
      assert s == s[..n] + [s[n]];
    }
  }

  lemma {:induction false} WithoutAbsentName(s: seq<Flow>, drop: seq<Name>, x: Name)
    requires x !in FlowNames(s)
    ensures WithoutFlows(s, drop + [x]) == WithoutFlows(s, drop)
    decreases |s|
  {
    if s != [] {
      var n := |s| - 1;
      assert FlowNames(s[..n]) == FlowNames(s)[..n];
      WithoutAbsentName(s[..n], drop, x);
    }
  }

  /** Deleting the collected names leaves exactly the surviving flows. */
  lemma {:induction false} DropLeavesKept(flows: seq<Flow>, invNames: seq<Name>, varNames: seq<Name>)
    requires Unique(FlowNames(flows))
    ensures WithoutFlows(CheckedAll(flows, invNames, varNames), DroppedFlowNames(flows, invNames, varNames))
            == KeptFlows(flows, invNames, varNames)
    decreases |flows|
  {
    if flows != [] {
      var n := |flows| - 1;
      var p := flows[..n];
      assert FlowNames(p) == FlowNames(flows)[..n];
      var all := CheckedAll(flows, invNames, varNames);
      assert all[..n] == CheckedAll(p, invNames, varNames);
      assert all == all[..n] + [all[n]];
      var d := DroppedFlowNames(p, invNames, varNames);
      assert flows[n].name !in FlowNames(p);
      assert flows[n].name !in d;
      assert FlowNames(all[..n]) == FlowNames(p);
      DropLeavesKept(p, invNames, varNames);
      var pre := KeptFlows(p, invNames, varNames);
      assert WithoutFlows(all[..n], d) == pre;
      assert all[n].name == flows[n].name;
      if Dropped(Cleared(flows[n], invNames), invNames, varNames) {
        assert DroppedFlowNames(flows, invNames, varNames) == d + [flows[n].name];
        WithoutAbsentName(all[..n], d, flows[n].name);
        assert WithoutFlows(all, d + [flows[n].name]) == WithoutFlows(all[..n], d + [flows[n].name]);
      } else {
        assert DroppedFlowNames(flows, invNames, varNames) == d;
        assert WithoutFlows(all, d) == WithoutFlows(all[..n], d) + [all[n]];
      }
    }
  }

  /** The names of the flows drained from inventory `inv`, in order. */
  function Outgoing(flows: seq<Flow>, inv: Name): (r: seq<Name>)
    ensures forall m :: m in r ==> m in FlowNames(flows)
    decreases |flows|
  {
    if flows == [] then []
    else
      var n := |flows| - 1;
      assert FlowNames(flows[..n]) == FlowNames(flows)[..n];
      Outgoing(flows[..n], inv) + if flows[n].source == Some(inv) then [flows[n].name] else []
  }

  /** The names of the flows feeding inventory `inv`, in order. */
  function Incoming(flows: seq<Flow>, inv: Name): (r: seq<Name>)
    ensures forall m :: m in r ==> m in FlowNames(flows)
    decreases |flows|
  {
    if flows == [] then []
    else
      var n := |flows| - 1;
      assert FlowNames(flows[..n]) == FlowNames(flows)[..n];
      Incoming(flows[..n], inv) + if flows[n].sink == Some(inv) then [flows[n].name] else []
  }

  /** An inventory's outgoing (incoming) list holds a flow exactly when the
      flow's source (sink) is that inventory, and holds it once. */
  lemma {:induction false} LinksExact(flows: seq<Flow>, inv: Name)
    requires Unique(FlowNames(flows))
    ensures forall j :: 0 <= j < |flows| ==> (flows[j].name in Outgoing(flows, inv) <==> flows[j].source == Some(inv))
    ensures forall j :: 0 <= j < |flows| ==> (flows[j].name in Incoming(flows, inv) <==> flows[j].sink == Some(inv))
    ensures Unique(Outgoing(flows, inv)) && Unique(Incoming(flows, inv))
  {
    OutgoingExact(flows, inv);
    IncomingExact(flows, inv);
  }

  lemma {:induction false} OutgoingExact(flows: seq<Flow>, inv: Name)
    requires Unique(FlowNames(flows))
    ensures forall j :: 0 <= j < |flows| ==> (flows[j].name in Outgoing(flows, inv) <==> flows[j].source == Some(inv))
    ensures Unique(Outgoing(flows, inv))
    decreases |flows|
  {
    if flows != [] {
      var n := |flows| - 1;
      var p := flows[..n];
      assert FlowNames(p) == FlowNames(flows)[..n];
      OutgoingExact(p, inv);
      assert flows[n].name !in FlowNames(p);
      forall j | 0 <= j < n ensures flows[j].name != flows[n].name && flows[j] == p[j] { }
      if flows[n].source == Some(inv) {
        UniqueAppend(Outgoing(p, inv), flows[n].name);
      }
    }
  }

  lemma {:induction false} IncomingExact(flows: seq<Flow>, inv: Name)
    requires Unique(FlowNames(flows))
    ensures forall j :: 0 <= j < |flows| ==> (flows[j].name in Incoming(flows, inv) <==> flows[j].sink == Some(inv))
    ensures Unique(Incoming(flows, inv))
    decreases |flows|
  {
    if flows != [] {
      var n := |flows| - 1;
      var p := flows[..n];
      assert FlowNames(p) == FlowNames(flows)[..n];
      IncomingExact(p, inv);
      assert flows[n].name !in FlowNames(p);
      forall j | 0 <= j < n ensures flows[j].name != flows[n].name && flows[j] == p[j] { }
      if flows[n].sink == Some(inv) {
        UniqueAppend(Incoming(p, inv), flows[n].name);
      }
    }
  }

  lemma {:induction false} UniqueAppend(ns: seq<Name>, m: Name)
    requires Unique(ns) && m !in ns
    ensures Unique(ns + [m])
  {
    var r := ns + [m];
    forall i, j | 0 <= i < j < |r| ensures r[i] != r[j] {
      if j < |ns| {
        assert r[i] == ns[i] && r[j] == ns[j];
      } else {
        assert r[i] == ns[i];
      }
    }
  }

  /** Each inventory with the surviving flows appended to its lists. */
  function Link(invs: seq<Inventory>, kept: seq<Flow>): (r: seq<Inventory>)
    ensures |r| == |invs|
    ensures forall k :: 0 <= k < |invs| ==>
              r[k] == invs[k].(outs := invs[k].outs + Outgoing(kept, invs[k].name),
                               ins := invs[k].ins + Incoming(kept, invs[k].name))
    ensures InvNames(r) == InvNames(invs)
  {
    seq(|invs|, k requires 0 <= k < |invs| =>
      invs[k].(outs := invs[k].outs + Outgoing(kept, invs[k].name),
               ins := invs[k].ins + Incoming(kept, invs[k].name)))
  }

  /** The variables that survive: their name is neither an inventory's nor
      a surviving flow's. */
  function KeptVars(vars: seq<Variable>, invNames: seq<Name>, flowNames: seq<Name>): (r: seq<Variable>)
    ensures forall j :: 0 <= j < |r| ==> r[j].name !in invNames && r[j].name !in flowNames
    ensures forall j :: 0 <= j < |r| ==> r[j].name in VarNames(vars)
    ensures Unique(VarNames(vars)) ==> Unique(VarNames(r))
    decreases |vars|
  {
    if vars == [] then []
    else
      var n := |vars| - 1;
      assert VarNames(vars[..n]) == VarNames(vars)[..n];
      KeptVars(vars[..n], invNames, flowNames)
        + if vars[n].name in invNames || vars[n].name in flowNames then [] else [vars[n]]
  }

  function DroppedVarNames(vars: seq<Variable>, invNames: seq<Name>, flowNames: seq<Name>): (r: seq<Name>)
    ensures forall m :: m in r ==> m in VarNames(vars)
    decreases |vars|
  {
    if vars == [] then []
    else
      var n := |vars| - 1;
      assert VarNames(vars[..n]) == VarNames(vars)[..n];
      DroppedVarNames(vars[..n], invNames, flowNames)
        + if vars[n].name in invNames || vars[n].name in flowNames then [vars[n].name] else []
  }

  /** Popping each listed name from the ordered dictionary of variables. */
  function WithoutVars(s: seq<Variable>, drop: seq<Name>): (r: seq<Variable>)
    ensures |r| <= |s|
    decreases |s|
  {
    if s == [] then []
    else
      var n := |s| - 1;
      WithoutVars(s[..n], drop) + if s[n].name in drop then [] else [s[n]]
  }

  /** Exactly the records whose name is not listed remain. */
  lemma {:induction false} WithoutVarsExact(s: seq<Variable>, drop: seq<Name>)
    ensures forall x :: x in WithoutVars(s, drop) ==> x in s && x.name !in drop
    ensures forall i :: 0 <= i < |s| && s[i].name !in drop ==> s[i] in WithoutVars(s, drop)
    decreases |s|
  {
    if s != [] {
      var n := |s| - 1;
      WithoutVarsExact(s[..n], drop);
      assert s == s[..n] + [s[n]];
    }
  }

  lemma {:induction false} WithoutAbsentVar(s: seq<Variable>, drop: seq<Name>, x: Name)
    requires x !in VarNames(s)
    ensures WithoutVars(s, drop + [x]) == WithoutVars(s, drop)
    decreases |s|
  {
    if s != [] {
      var n := |s| - 1;
      assert VarNames(s[..n]) == VarNames(s)[..n];
      WithoutAbsentVar(s[..n], drop, x);
    }
  }

  lemma {:induction false} DropLeavesKeptVars(vars: seq<Variable>, invNames: seq<Name>, flowNames: seq<Name>)
    requires Unique(VarNames(vars))
    ensures WithoutVars(vars, DroppedVarNames(vars, invNames, flowNames)) == KeptVars(vars, invNames, flowNames)
    decreases |vars|
  {
    if vars != [] {
      var n := |vars| - 1;
      var p := vars[..n];
      assert VarNames(p) == VarNames(vars)[..n];
      assert vars == p + [vars[n]];
      var d := DroppedVarNames(p, invNames, flowNames);
      assert vars[n].name !in VarNames(p);
      DropLeavesKeptVars(p, invNames, flowNames);
      if vars[n].name in invNames || vars[n].name in flowNames {
        assert DroppedVarNames(vars, invNames, flowNames) == d + [vars[n].name];
        WithoutAbsentVar(p, d, vars[n].name);
        assert WithoutVars(vars, d + [vars[n].name]) == WithoutVars(p, d + [vars[n].name]);
      } else {
        assert DroppedVarNames(vars, invNames, flowNames) == d;
        assert WithoutVars(vars, d) == WithoutVars(p, d) + [vars[n]];
      }
    }
  }

  /** The registry as the stepper needs it: names unique and pairwise
      disjoint across the three namespaces, every flow admissible, and
      every inventory's lists exactly its outgoing and incoming flows. */
  predicate Compiled(invs: seq<Inventory>, flows: seq<Flow>, vars: seq<Variable>)
    ensures Compiled(invs, flows, vars) ==>
              forall k, m :: 0 <= k < |invs| && (m in invs[k].outs || m in invs[k].ins) ==> m in FlowNames(flows)
  {
    && Unique(InvNames(invs)) && Unique(FlowNames(flows)) && Unique(VarNames(vars))
    && (forall k :: 0 <= k < |invs| ==> invs[k].name !in FlowNames(flows) && invs[k].name !in VarNames(vars))
    && (forall j :: 0 <= j < |flows| ==> flows[j].name !in VarNames(vars) && Admissible(flows[j], InvNames(invs)))
    && (forall k :: 0 <= k < |invs| ==>
          invs[k].outs == Outgoing(flows, invs[k].name) && invs[k].ins == Incoming(flows, invs[k].name))
  }

  /** Validating and linking a registry whose dictionaries have distinct
      keys and whose inventories are not linked yet yields a registry the
      stepper can run. */
  lemma {:induction false} CompileYieldsCompiled(invs: seq<Inventory>, flows: seq<Flow>, vars: seq<Variable>)
    requires Unique(InvNames(invs)) && Unique(FlowNames(flows)) && Unique(VarNames(vars))
    requires Unlinked(invs)
    ensures var kept := KeptFlows(flows, InvNames(invs), VarNames(vars));
            Compiled(Link(invs, kept), kept, KeptVars(vars, InvNames(invs), FlowNames(kept)))
  {
    var kept := KeptFlows(flows, InvNames(invs), VarNames(vars));
    var keptV := KeptVars(vars, InvNames(invs), FlowNames(kept));
    var linked := Link(invs, kept);
    forall k | 0 <= k < |invs|
      ensures linked[k].outs == Outgoing(kept, linked[k].name)
      ensures linked[k].ins == Incoming(kept, linked[k].name)
    {
      assert [] + Outgoing(kept, invs[k].name) == Outgoing(kept, invs[k].name);
      assert [] + Incoming(kept, invs[k].name) == Incoming(kept, invs[k].name);
    }
    forall k | 0 <= k < |invs| ensures invs[k].name !in VarNames(keptV) {
      assert forall i :: 0 <= i < |keptV| ==> keptV[i].name != invs[k].name;
    }
    forall j | 0 <= j < |kept| ensures kept[j].name !in VarNames(keptV) {
      assert forall i :: 0 <= i < |keptV| ==> keptV[i].name != kept[j].name;
    }
    forall k | 0 <= k < |invs| ensures invs[k].name !in FlowNames(kept) {
      assert forall i :: 0 <= i < |kept| ==> kept[i].name != invs[k].name;
    }
  }

  /** A flow survives exactly when, its unknown endpoints cleared, it keeps
      an endpoint and its name is taken by no inventory and no variable;
      it survives as the checked record. */
  lemma {:induction false} KeptFlowsMember(flows: seq<Flow>, invNames: seq<Name>, varNames: seq<Name>, j: nat)
    requires Unique(FlowNames(flows)) && j < |flows|
    ensures flows[j].name in FlowNames(KeptFlows(flows, invNames, varNames))
            <==> !Dropped(Cleared(flows[j], invNames), invNames, varNames)
    ensures !Dropped(Cleared(flows[j], invNames), invNames, varNames) ==>
              Checked(flows[j], invNames, varNames) in KeptFlows(flows, invNames, varNames)
    decreases |flows|
  {
    var n := |flows| - 1;
    var p := flows[..n];
    assert FlowNames(p) == FlowNames(flows)[..n];
    var pre := KeptFlows(p, invNames, varNames);
    var kept := KeptFlows(flows, invNames, varNames);
    var x := flows[n];
    var c := Checked(x, invNames, varNames);
    var dropped := Dropped(Cleared(x, invNames), invNames, varNames);
    assert kept == if dropped then pre else pre + [c];
    assert FlowNames(kept) == if dropped then FlowNames(pre) else FlowNames(pre) + [x.name];
    assert x.name !in FlowNames(pre) by {
      assert x.name !in FlowNames(p);
      assert forall i :: 0 <= i < |pre| ==> pre[i].name in FlowNames(p);
    }
    if j < n {
      KeptFlowsMember(p, invNames, varNames, j);
      assert p[j] == flows[j];
      assert flows[j].name != x.name;
    }
  }

  /** A flow whose source names no inventory but whose sink does, and whose
      name is free, is kept with its source cleared: an unknown endpoint on
      its own does not drop it. */
  lemma {:induction false} UnknownSourceCleared(flows: seq<Flow>, invNames: seq<Name>, varNames: seq<Name>, j: nat)
    requires Unique(FlowNames(flows)) && j < |flows|
    requires flows[j].source.Some? && flows[j].source.value !in invNames
    requires flows[j].sink.Some? && flows[j].sink.value in invNames
    requires flows[j].name !in invNames && flows[j].name !in varNames
    ensures exists i :: 0 <= i < |KeptFlows(flows, invNames, varNames)| &&
              KeptFlows(flows, invNames, varNames)[i].name == flows[j].name &&
              KeptFlows(flows, invNames, varNames)[i].source.None? &&
              KeptFlows(flows, invNames, varNames)[i].sink == flows[j].sink
  {
    KeptFlowsMember(flows, invNames, varNames, j);
    var kept := KeptFlows(flows, invNames, varNames);
    var c := Checked(flows[j], invNames, varNames);
    assert c in kept;
    var i :| 0 <= i < |kept| && kept[i] == c;
  }

  /** The mirror case: an unknown sink next to a known source clears only
      the sink. */
  lemma {:induction false} UnknownSinkCleared(flows: seq<Flow>, invNames: seq<Name>, varNames: seq<Name>, j: nat)
    requires Unique(FlowNames(flows)) && j < |flows|
    requires flows[j].sink.Some? && flows[j].sink.value !in invNames
    requires flows[j].source.Some? && flows[j].source.value in invNames
    requires flows[j].name !in invNames && flows[j].name !in varNames
    ensures exists i :: 0 <= i < |KeptFlows(flows, invNames, varNames)| &&
              KeptFlows(flows, invNames, varNames)[i].name == flows[j].name &&
              KeptFlows(flows, invNames, varNames)[i].sink.None? &&
              KeptFlows(flows, invNames, varNames)[i].source == flows[j].source
  {
    KeptFlowsMember(flows, invNames, varNames, j);
    var kept := KeptFlows(flows, invNames, varNames);
    var c := Checked(flows[j], invNames, varNames);
    assert c in kept;
    var i :| 0 <= i < |kept| && kept[i] == c;
  }

  /** The registry `_compile_inputs` leaves behind: inventories linked to
      the surviving flows, the surviving flows, the surviving variables. */
  function Compilation(invs: seq<Inventory>, flows: seq<Flow>, vars: seq<Variable>): (r: (seq<Inventory>, seq<Flow>, seq<Variable>))
    ensures InvNames(r.0) == InvNames(invs)
    ensures forall j :: 0 <= j < |r.1| ==>
              r.1[j].name in FlowNames(flows) && r.1[j].name !in InvNames(invs) && r.1[j].name !in VarNames(vars)
    ensures forall j :: 0 <= j < |r.2| ==>
              r.2[j].name in VarNames(vars) && r.2[j].name !in InvNames(invs) && r.2[j].name !in FlowNames(r.1)
    ensures Unique(InvNames(invs)) && Unique(FlowNames(flows)) && Unique(VarNames(vars)) && Unlinked(invs) ==>
              Compiled(r.0, r.1, r.2)
  {
    var kept := KeptFlows(flows, InvNames(invs), VarNames(vars));
    var r := (Link(invs, kept), kept, KeptVars(vars, InvNames(invs), FlowNames(kept)));
    if Unique(InvNames(invs)) && Unique(FlowNames(flows)) && Unique(VarNames(vars)) && Unlinked(invs) then
      CompileYieldsCompiled(invs, flows, vars);
      r
    else r
  }

  /** `inventories[inv]['out'].append(name)`. */
  function AppendOut(invs: seq<Inventory>, inv: Name, name: Name): (r: seq<Inventory>)
    requires inv in InvNames(invs)
    ensures InvNames(r) == InvNames(invs)
  {
    var k := IndexOf(InvNames(invs), inv);
    invs[k := invs[k].(outs := invs[k].outs + [name])]
  }

  /** `inventories[inv]['in'].append(name)`. */
  function AppendIn(invs: seq<Inventory>, inv: Name, name: Name): (r: seq<Inventory>)
    requires inv in InvNames(invs)
    ensures InvNames(r) == InvNames(invs)
  {
    var k := IndexOf(InvNames(invs), inv);
    invs[k := invs[k].(ins := invs[k].ins + [name])]
  }

  /** The two appends for a surviving flow whose endpoints are inventories. */
  function Attach(invs: seq<Inventory>, c: Flow): (r: seq<Inventory>)
    requires c.source.Some? ==> c.source.value in InvNames(invs)
    requires c.sink.Some? ==> c.sink.value in InvNames(invs)
    ensures InvNames(r) == InvNames(invs)
  {
    var withOut := if c.source.Some? then AppendOut(invs, c.source.value, c.name) else invs;
    assert InvNames(withOut) == InvNames(invs);
    if c.sink.Some? then AppendIn(withOut, c.sink.value, c.name) else withOut
  }

  /** `Attach` appends the flow's name to exactly the lists of the
      inventories named as its source and sink. */
  lemma {:induction false} AttachAt(invs: seq<Inventory>, c: Flow, k: nat)
    requires Unique(InvNames(invs)) && k < |invs|
    requires c.source.Some? ==> c.source.value in InvNames(invs)
    requires c.sink.Some? ==> c.sink.value in InvNames(invs)
    ensures Attach(invs, c)[k]
            == invs[k].(outs := invs[k].outs + (if c.source == Some(invs[k].name) then [c.name] else []),
                        ins := invs[k].ins + (if c.sink == Some(invs[k].name) then [c.name] else []))
  {
    var withOut := if c.source.Some? then AppendOut(invs, c.source.value, c.name) else invs;
    assert InvNames(withOut) == InvNames(invs);
    assert withOut[k] == invs[k].(outs := invs[k].outs + (if c.source == Some(invs[k].name) then [c.name] else []));
  }

  lemma {:induction false} LinksAppend(kept: seq<Flow>, c: Flow, x: Name)
    ensures Outgoing(kept + [c], x) == Outgoing(kept, x) + if c.source == Some(x) then [c.name] else []
    ensures Incoming(kept + [c], x) == Incoming(kept, x) + if c.sink == Some(x) then [c.name] else []
  {
    assert (kept + [c])[..|kept|] == kept;
  }

  /** Appending a flow's name to its source's and sink's lists, one flow at
      a time, builds the links of all surviving flows. */
  lemma {:induction false} LinkStep(invs: seq<Inventory>, kept: seq<Flow>, c: Flow)
    requires Unique(InvNames(invs))
    requires c.source.Some? ==> c.source.value in InvNames(invs)
    requires c.sink.Some? ==> c.sink.value in InvNames(invs)
    ensures Link(invs, kept + [c]) == Attach(Link(invs, kept), c)
  {
    var l := Link(invs, kept);
    var a := Attach(l, c);
    var r := Link(invs, kept + [c]);
    forall k | 0 <= k < |invs|
      ensures a[k] == r[k]
    {
      var x := invs[k].name;
      var o := if c.source == Some(x) then [c.name] else [];
      var i := if c.sink == Some(x) then [c.name] else [];
      LinksAppend(kept, c, x);
      AttachAt(l, c, k);
      Associative(invs[k].outs, Outgoing(kept, x), o);
      Associative(invs[k].ins, Incoming(kept, x), i);
    }
  }

  lemma {:induction false} Associative(a: seq<Name>, b: seq<Name>, c: seq<Name>)
    ensures (a + b) + c == a + (b + c)
  {
  }

  /** Popping one more name after the others. */
  lemma {:induction false} WithoutFlowsPop(s: seq<Flow>, drop: seq<Name>, x: Name)
    ensures WithoutFlows(WithoutFlows(s, drop), [x]) == WithoutFlows(s, drop + [x])
    decreases |s|
  {
    if s != [] {
      var n := |s| - 1;
      WithoutFlowsPop(s[..n], drop, x);
      var w := WithoutFlows(s[..n], drop);
      var tail := if s[n].name in drop then [] else [s[n]];
      assert WithoutFlows(s, drop) == w + tail;
      if tail != [] {
        assert (w + tail)[..|w|] == w;
      } else {
        assert w + tail == w;
      }
    }
  }

  /** Popping nothing leaves the dictionary as it is. */
  lemma {:induction false} WithoutNoFlows(s: seq<Flow>)
    ensures WithoutFlows(s, []) == s
    decreases |s|
  {
    if s != [] {
      var n := |s| - 1;
      WithoutNoFlows(s[..n]);
      assert s[..n] + [s[n]] == s;
    }
  }

  lemma {:induction false} WithoutVarsPop(s: seq<Variable>, drop: seq<Name>, x: Name)
    ensures WithoutVars(WithoutVars(s, drop), [x]) == WithoutVars(s, drop + [x])
    decreases |s|
  {
    if s != [] {
      var n := |s| - 1;
      WithoutVarsPop(s[..n], drop, x);
      var w := WithoutVars(s[..n], drop);
      var tail := if s[n].name in drop then [] else [s[n]];
      assert WithoutVars(s, drop) == w + tail;
      if tail != [] {
        assert (w + tail)[..|w|] == w;
      } else {
        assert w + tail == w;
      }
    }
  }

  lemma {:induction false} WithoutNoVars(s: seq<Variable>)
    ensures WithoutVars(s, []) == s
    decreases |s|
  {
    if s != [] {
      var n := |s| - 1;
      WithoutNoVars(s[..n]);
      assert s[..n] + [s[n]] == s;
    }
  }

  /** One more flow of the check: it is either collected for deletion or
      kept as its checked record. */
  lemma {:induction false} CompileStep(flows: seq<Flow>, invNames: seq<Name>, varNames: seq<Name>, j: nat)
    requires j < |flows|
    ensures var c := Checked(flows[j], invNames, varNames);
            if Dropped(Cleared(flows[j], invNames), invNames, varNames) then
              && DroppedFlowNames(flows[..j + 1], invNames, varNames) == DroppedFlowNames(flows[..j], invNames, varNames) + [flows[j].name]
              && KeptFlows(flows[..j + 1], invNames, varNames) == KeptFlows(flows[..j], invNames, varNames)
            else
              && DroppedFlowNames(flows[..j + 1], invNames, varNames) == DroppedFlowNames(flows[..j], invNames, varNames)
              && KeptFlows(flows[..j + 1], invNames, varNames) == KeptFlows(flows[..j], invNames, varNames) + [c]
  {
    assert flows[..j + 1][..j] == flows[..j];
    assert DroppedFlowNames(flows[..j], invNames, varNames) + [] == DroppedFlowNames(flows[..j], invNames, varNames);
  }

  /** Linking no flows leaves the inventories as they were. */
  lemma {:induction false} LinkNothing(invs: seq<Inventory>)
    ensures Link(invs, []) == invs
  {
    forall k | 0 <= k < |invs|
      ensures Link(invs, [])[k] == invs[k]
    {
      assert invs[k].outs + [] == invs[k].outs && invs[k].ins + [] == invs[k].ins;
    }
  }
}
