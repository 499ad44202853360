/** One step of the integrator, as a function of the current row: variables
    in registration order, each written back into the context at once;
    then flows in registration order, all on the same context, so a flow
    reading another flow sees its previous-row value; then the explicit
    Euler update of every inventory. */
module Stepper {
  import opened Entities
  import opened Linker

  /** The values of every series at one time index, in registration order. */
  datatype Row = Row(inv: seq<real>, flows: seq<real>, vars: seq<real>)

  predicate Shaped(row: Row, invs: seq<Inventory>, flows: seq<Flow>, vars: seq<Variable>) {
    |row.inv| == |invs| && |row.flows| == |flows| && |row.vars| == |vars|
  }

  /** Assigning `ctx[names[i]] = vals[i]` for each `i` in turn. */
  function Bind(ctx: Context, names: seq<Name>, vals: seq<real>): (r: Context)
    requires |names| == |vals|
    decreases |names|
  {
    if names == [] then ctx
    else
      var n := |names| - 1;
      Bind(ctx, names[..n], vals[..n])[names[n] := vals[n]]
  }

  /** Binding adds every name and keeps every other key with its value. */
  lemma {:induction false} BindDomain(ctx: Context, names: seq<Name>, vals: seq<real>)
    requires |names| == |vals|
    ensures forall i :: 0 <= i < |names| ==> names[i] in Bind(ctx, names, vals)
    ensures forall m :: m in ctx ==> m in Bind(ctx, names, vals)
    ensures forall m :: m in ctx && m !in names ==> Bind(ctx, names, vals)[m] == ctx[m]
    ensures forall m :: m in Bind(ctx, names, vals) ==> m in ctx || m in names
    decreases |names|
  {
    if names != [] {
      var n := |names| - 1;
      BindDomain(ctx, names[..n], vals[..n]);
      forall i | 0 <= i < n ensures names[..n][i] == names[i] { }
      forall m | m in ctx && m !in names ensures m !in names[..n] { }
      forall m | m in names[..n] ensures m in names { }
    }
  }

  /** With distinct names, the bound context maps each name to its value. */
  lemma {:induction false} BindAt(ctx: Context, names: seq<Name>, vals: seq<real>)
    requires |names| == |vals| && Unique(names)
    ensures forall i :: 0 <= i < |names| ==> names[i] in Bind(ctx, names, vals) && Bind(ctx, names, vals)[names[i]] == vals[i]
    decreases |names|
  {
    BindDomain(ctx, names, vals);
    if names != [] {
      var n := |names| - 1;
      BindAt(ctx, names[..n], vals[..n]);
      forall i | 0 <= i < n ensures names[i] != names[n] && names[..n][i] == names[i] && vals[..n][i] == vals[i] { }
    }
  }

  /** `_make_model_dict`: inventories, then flows, then variables; at most
      one entry per entity. */
  function RowContext(invs: seq<Inventory>, flows: seq<Flow>, vars: seq<Variable>, row: Row): (ctx: Context)
    requires Shaped(row, invs, flows, vars)
    ensures |ctx| <= |invs| + |flows| + |vars|
  {
    var c1 := Bind(map[], InvNames(invs), row.inv);
    var c2 := Bind(c1, FlowNames(flows), row.flows);
    BindSize(map[], InvNames(invs), row.inv);
    BindSize(c1, FlowNames(flows), row.flows);
    BindSize(c2, VarNames(vars), row.vars);
    Bind(c2, VarNames(vars), row.vars)
  }

  lemma {:induction false} BindSize(ctx: Context, names: seq<Name>, vals: seq<real>)
    requires |names| == |vals|
    ensures |Bind(ctx, names, vals)| <= |ctx| + |names|
    decreases |names|
  {
    if names != [] {
      var n := |names| - 1;
      BindSize(ctx, names[..n], vals[..n]);
    }
  }

  /** The keys of the dictionary are exactly the names of the inventories,
      flows and variables. */
  lemma {:induction false} RowContextKeys(invs: seq<Inventory>, flows: seq<Flow>, vars: seq<Variable>, row: Row)
    requires Shaped(row, invs, flows, vars)
    ensures forall n :: n in RowContext(invs, flows, vars, row) <==>
              n in InvNames(invs) || n in FlowNames(flows) || n in VarNames(vars)
  {
    var c1 := Bind(map[], InvNames(invs), row.inv);
    var c2 := Bind(c1, FlowNames(flows), row.flows);
    BindDomain(map[], InvNames(invs), row.inv);
    BindDomain(c1, FlowNames(flows), row.flows);
    BindDomain(c2, VarNames(vars), row.vars);
  }

  /** No name is used twice across the three dictionaries. */
  predicate Distinct(invs: seq<Inventory>, flows: seq<Flow>, vars: seq<Variable>) {
    && Unique(InvNames(invs)) && Unique(FlowNames(flows)) && Unique(VarNames(vars))
    && (forall k :: 0 <= k < |invs| ==> invs[k].name !in FlowNames(flows) && invs[k].name !in VarNames(vars))
    && (forall j :: 0 <= j < |flows| ==> flows[j].name !in VarNames(vars))
  }

  /** With distinct names every name is bound to its own entity's value. */
  lemma {:induction false} RowContextAt(invs: seq<Inventory>, flows: seq<Flow>, vars: seq<Variable>, row: Row)
    requires Distinct(invs, flows, vars) && Shaped(row, invs, flows, vars)
    ensures var ctx := RowContext(invs, flows, vars, row);
            && (forall k :: 0 <= k < |invs| ==> invs[k].name in ctx && ctx[invs[k].name] == row.inv[k])
            && (forall j :: 0 <= j < |flows| ==> flows[j].name in ctx && ctx[flows[j].name] == row.flows[j])
            && (forall i :: 0 <= i < |vars| ==> vars[i].name in ctx && ctx[vars[i].name] == row.vars[i])
  {
    var c1 := Bind(map[], InvNames(invs), row.inv);
    var c2 := Bind(c1, FlowNames(flows), row.flows);
    BindAt(map[], InvNames(invs), row.inv);
    BindAt(c1, FlowNames(flows), row.flows);
    BindAt(c2, VarNames(vars), row.vars);
    BindDomain(c1, FlowNames(flows), row.flows);
    BindDomain(c2, VarNames(vars), row.vars);
  }

  /** The variable pass: each variable is evaluated on the context as left
      by the variables before it, and its value is written back at once. */
  function EvalVars(vars: seq<Variable>, t: real, ctx: Context): (r: Outcome<(seq<real>, Context)>)
    ensures r.Returned? ==> |r.value.0| == |vars|
    decreases |vars|
  {
    if vars == [] then Returned(([], ctx))
    else
      var n := |vars| - 1;
      match EvalVars(vars[..n], t, ctx)
      case Raised => Raised
      case Returned(prev) =>
        match vars[n].f(t, prev.1)
        case Raised => Raised
        case Returned(v) => Returned((prev.0 + [v], prev.1[vars[n].name := v]))
  }

  /** The context the variable pass leaves is the one it started from with
      every variable bound to its new value. */
  lemma {:induction false} EvalVarsContext(vars: seq<Variable>, t: real, ctx: Context)
    requires EvalVars(vars, t, ctx).Returned?
    ensures EvalVars(vars, t, ctx).value.1 == Bind(ctx, VarNames(vars), EvalVars(vars, t, ctx).value.0)
    decreases |vars|
  {
    if vars != [] {
      var n := |vars| - 1;
      var prev := EvalVars(vars[..n], t, ctx).value;
      EvalVarsContext(vars[..n], t, ctx);
      var all := EvalVars(vars, t, ctx).value.0;
      assert VarNames(vars)[..n] == VarNames(vars[..n]);
      assert all[..n] == prev.0;
    }
  }

  /** The pass over the first `j` variables is the start of the whole pass,
      and variable `j` returned its value on the context that pass left. */
  lemma {:induction false} EvalVarsPrefix(vars: seq<Variable>, t: real, ctx: Context, j: nat)
    requires EvalVars(vars, t, ctx).Returned? && j < |vars|
    ensures EvalVars(vars[..j], t, ctx).Returned?
    ensures EvalVars(vars[..j], t, ctx).value.0 == EvalVars(vars, t, ctx).value.0[..j]
    ensures vars[j].f(t, EvalVars(vars[..j], t, ctx).value.1) == Returned(EvalVars(vars, t, ctx).value.0[j])
    decreases |vars|
  {
    var n := |vars| - 1;
    var all := EvalVars(vars, t, ctx).value.0;
    var prev := EvalVars(vars[..n], t, ctx);
    assert prev.Returned?;
    assert all == prev.value.0 + [all[n]];
    if j < n {
      EvalVarsPrefix(vars[..n], t, ctx, j);
      assert vars[..n][..j] == vars[..j];
      assert vars[..n][j] == vars[j];
      assert all[..n][..j] == all[..j];
    } else {
      assert vars[..j] == vars[..n];
      assert all[..j] == prev.value.0;
    }
  }

  /** Treat a flow callback's `None` as a rate of zero. */
  function RateOf(o: Option<real>): (r: real)
    ensures o.None? ==> r == 0.0
    ensures o.Some? ==> r == o.value
  {
    if o.Some? then o.value else 0.0
  }

  /** The flow pass: every flow on the same context; nothing written back.
      Calling a missing callback raises. */
  function EvalFlows(flows: seq<Flow>, t: real, ctx: Context): (r: Outcome<seq<real>>)
    ensures r.Returned? ==> |r.value| == |flows|
    decreases |flows|
  {
    if flows == [] then Returned([])
    else
      var n := |flows| - 1;
      match EvalFlows(flows[..n], t, ctx)
      case Raised => Raised
      case Returned(prev) =>
        if flows[n].f.None? then Raised
        else
          match flows[n].f.value(t, ctx)
          case Raised => Raised
          case Returned(o) => Returned(prev + [RateOf(o)])
  }

  /** The flow pass returns exactly when every flow has a callback and
      every callback returns; the rates are the callbacks' results with
      `None` read as zero. */
  lemma {:induction false} EvalFlowsSpec(flows: seq<Flow>, t: real, ctx: Context)
    ensures EvalFlows(flows, t, ctx).Returned? <==>
              forall j :: 0 <= j < |flows| ==> flows[j].f.Some? && flows[j].f.value(t, ctx).Returned?
    ensures EvalFlows(flows, t, ctx).Returned? ==>
              forall j :: 0 <= j < |flows| ==> EvalFlows(flows, t, ctx).value[j] == RateOf(flows[j].f.value(t, ctx).value)
    decreases |flows|
  {
    if flows != [] {
      var n := |flows| - 1;
      EvalFlowsSpec(flows[..n], t, ctx);
      assert forall j :: 0 <= j < n ==> flows[..n][j] == flows[j];
    }
  }

  /** The sum of `res[m]` over the names `m`. */
  function SumRates(names: seq<Name>, res: map<Name, real>): (r: real)
    requires forall m :: m in names ==> m in res
    ensures |names| == 1 ==> r == res[names[0]]
    decreases |names|
  {
    if names == [] then 0.0
    else
      var n := |names| - 1;
      assert forall m :: m in names[..n] ==> m in names;
      SumRates(names[..n], res) + res[names[n]]
  }

  /** Summing non-negative results gives a non-negative total. */
  lemma {:induction false} SumRatesSign(names: seq<Name>, res: map<Name, real>)
    requires forall m :: m in names ==> m in res
    ensures (forall m :: m in names ==> res[m] >= 0.0) ==> SumRates(names, res) >= 0.0
    decreases |names|
  {
    if names != [] {
      var n := |names| - 1;
      assert forall m :: m in names[..n] ==> m in names;
      SumRatesSign(names[..n], res);
    }
  }

  /** Every flow an inventory lists has a result. */
  predicate Resolves(inv: Inventory, res: map<Name, real>) {
    (forall m :: m in inv.outs ==> m in res) && (forall m :: m in inv.ins ==> m in res)
  }

  predicate AllResolve(invs: seq<Inventory>, res: map<Name, real>) {
    forall k :: 0 <= k < |invs| ==> Resolves(invs[k], res)
  }

  /** Incoming minus outgoing flow results. */
  function Delta(inv: Inventory, res: map<Name, real>): (d: real)
    requires Resolves(inv, res)
    ensures inv.outs == [] && inv.ins == [] ==> d == 0.0
  {
    SumRates(inv.ins, res) - SumRates(inv.outs, res)
  }

  /** An inventory that is only fed by non-negative rates does not fall;
      one that is only drained by them does not rise. */
  lemma {:induction false} DeltaSign(inv: Inventory, res: map<Name, real>)
    requires Resolves(inv, res)
    ensures inv.outs == [] && (forall m :: m in inv.ins ==> res[m] >= 0.0) ==> Delta(inv, res) >= 0.0
    ensures inv.ins == [] && (forall m :: m in inv.outs ==> res[m] >= 0.0) ==> Delta(inv, res) <= 0.0
  {
    SumRatesSign(inv.ins, res);
    SumRatesSign(inv.outs, res);
  }

  /** The flow results of one row keyed by flow name, as `results` is. */
  function Results(flows: seq<Flow>, rates: seq<real>): (res: map<Name, real>)
    requires |rates| == |flows|
  {
    Bind(map[], FlowNames(flows), rates)
  }

  /** `results` has at most one entry per flow, and exactly one when the
      flow names are distinct. */
  lemma {:induction false} ResultsCount(flows: seq<Flow>, rates: seq<real>)
    requires |rates| == |flows|
    ensures |Results(flows, rates)| <= |flows|
    ensures Unique(FlowNames(flows)) ==> |Results(flows, rates)| == |flows|
  {
    BindSize(map[], FlowNames(flows), rates);
    BindCount(FlowNames(flows), rates);
  }

  /** Binding distinct names into an empty dictionary makes one entry per name. */
  lemma {:induction false} BindCount(names: seq<Name>, vals: seq<real>)
    requires |names| == |vals|
    ensures Unique(names) ==> |Bind(map[], names, vals)| == |names|
    decreases |names|
  {
    if names != [] && Unique(names) {
      var n := |names| - 1;
      assert Unique(names[..n]);
      BindCount(names[..n], vals[..n]);
      BindDomain(map[], names[..n], vals[..n]);
      assert names[n] !in names[..n];
    }
  }

  /** What a rate moves over one step of length `step`. */
  function Moved(rate: real, step: real): real {
    rate * step
  }

  /** The explicit Euler update of every inventory. */
  function Euler(invs: seq<Inventory>, levels: seq<real>, res: map<Name, real>, step: real): (r: seq<real>)
    requires |levels| == |invs| && AllResolve(invs, res)
    ensures |r| == |invs|
  {
    seq(|invs|, k requires 0 <= k < |invs| => levels[k] + Moved(Delta(invs[k], res), step))
  }

  /** The inventory update of one step, once both passes returned: the
      Euler update by the flow results, or `Raised` when an inventory lists
      a flow that has no result. */
  function Advance(invs: seq<Inventory>, flows: seq<Flow>, levels: seq<real>, rates: seq<real>, newVars: seq<real>, step: real): (r: Outcome<Row>)
    requires |levels| == |invs| && |rates| == |flows|
    ensures r.Returned? ==> r.value.flows == rates && r.value.vars == newVars && |r.value.inv| == |invs|
  {
    var res := Results(flows, rates);
    if AllResolve(invs, res) then Returned(Row(Euler(invs, levels, res, step), rates, newVars))
    else Raised
  }

  /** Row `T + 1` from row `T` at time `t`, or `Raised` when a callback
      raises or an inventory lists a flow that has no result. */
  function NextRow(invs: seq<Inventory>, flows: seq<Flow>, vars: seq<Variable>, t: real, step: real, row: Row): (r: Outcome<Row>)
    requires Shaped(row, invs, flows, vars)
    ensures r.Returned? ==> Shaped(r.value, invs, flows, vars)
  {
    match EvalVars(vars, t, RowContext(invs, flows, vars, row))
    case Raised => Raised
    case Returned(vr) =>
      match EvalFlows(flows, t, vr.1)
      case Raised => Raised
      case Returned(rates) => Advance(invs, flows, row.inv, rates, vr.0, step)
  }

  /** A row that was computed came from both passes returning and the
      inventory update succeeding. */
  lemma {:induction false} NextRowParts(invs: seq<Inventory>, flows: seq<Flow>, vars: seq<Variable>, t: real, step: real, row: Row)
    requires Shaped(row, invs, flows, vars)
    requires NextRow(invs, flows, vars, t, step, row).Returned?
    ensures var vr := EvalVars(vars, t, RowContext(invs, flows, vars, row));
            && vr.Returned?
            && EvalFlows(flows, t, vr.value.1).Returned?
            && var next := NextRow(invs, flows, vars, t, step, row).value;
               && next.flows == EvalFlows(flows, t, vr.value.1).value
               && next.vars == vr.value.0
               && Advance(invs, flows, row.inv, next.flows, next.vars, step) == Returned(next)
  {
  }

  /** In a compiled registry every flow an inventory lists has a result. */
  lemma {:induction false} CompiledResolves(invs: seq<Inventory>, flows: seq<Flow>, vars: seq<Variable>, rates: seq<real>)
    requires Compiled(invs, flows, vars) && |rates| == |flows|
    ensures AllResolve(invs, Results(flows, rates))
  {
    var res := Results(flows, rates);
    BindDomain(map[], FlowNames(flows), rates);
    forall k, m | 0 <= k < |invs| && (m in invs[k].outs || m in invs[k].ins) ensures m in res {
      assert m in FlowNames(flows);
      var j := IndexOf(FlowNames(flows), m);
      assert flows[j].name == m;
    }
  }

  /** In a compiled registry a step raises exactly when a callback raises. */
  lemma {:induction false} CompiledStepRaises(invs: seq<Inventory>, flows: seq<Flow>, vars: seq<Variable>, t: real, step: real, row: Row)
    requires Compiled(invs, flows, vars) && Shaped(row, invs, flows, vars)
    ensures var vr := EvalVars(vars, t, RowContext(invs, flows, vars, row));
            NextRow(invs, flows, vars, t, step, row).Returned? <==>
              vr.Returned? && forall j :: 0 <= j < |flows| ==> flows[j].f.value(t, vr.value.1).Returned?
  {
    var vr := EvalVars(vars, t, RowContext(invs, flows, vars, row));
    if vr.Returned? {
      EvalFlowsSpec(flows, t, vr.value.1);
      var fr := EvalFlows(flows, t, vr.value.1);
      if fr.Returned? {
        CompiledResolves(invs, flows, vars, fr.value);
      }
    }
  }

  /** Row 0: inventories at their initial values, flows and variables zero. */
  function InitialRow(invs: seq<Inventory>, flows: seq<Flow>, vars: seq<Variable>): (r: Row)
    ensures Shaped(r, invs, flows, vars)
  {
    Row(seq(|invs|, k requires 0 <= k < |invs| => invs[k].value),
        seq(|flows|, j => 0.0),
        seq(|vars|, i => 0.0))
  }

  /** The clock after `T` steps from `start`, advanced one step at a time. */
  function TimeAt(start: real, step: real, T: nat): (r: real)
    decreases T
  {
    if T == 0 then start else TimeAt(start, step, T - 1) + step
  }

  /** The clock of step `T` is `start + T * step`. */
  lemma {:induction false} TimeAtValue(start: real, step: real, T: nat)
    ensures TimeAt(start, step, T) == start + T as real * step
    decreases T
  {
    if T > 0 {
      TimeAtValue(start, step, T - 1);
      var k := (T - 1) as real;
      assert (k + 1.0) * step == k * step + step;
    }
  }

  /** Row `T` of a run starting at time `start`, or `Raised` once any step
      on the way raised. */
  function RowAt(invs: seq<Inventory>, flows: seq<Flow>, vars: seq<Variable>, start: real, step: real, T: nat): (r: Outcome<Row>)
    ensures r.Returned? ==> Shaped(r.value, invs, flows, vars)
    decreases T
  {
    if T == 0 then Returned(InitialRow(invs, flows, vars))
    else
      match RowAt(invs, flows, vars, start, step, T - 1)
      case Raised => Raised
      case Returned(prev) => NextRow(invs, flows, vars, TimeAt(start, step, T - 1), step, prev)
  }

  /** A run that reached row `T` reached row `T - 1` and stepped from it. */
  lemma {:induction false} RowAtStep(invs: seq<Inventory>, flows: seq<Flow>, vars: seq<Variable>, start: real, step: real, T: nat)
    requires T > 0 && RowAt(invs, flows, vars, start, step, T).Returned?
    ensures RowAt(invs, flows, vars, start, step, T - 1).Returned?
    ensures RowAt(invs, flows, vars, start, step, T)
              == NextRow(invs, flows, vars, TimeAt(start, step, T - 1), step, RowAt(invs, flows, vars, start, step, T - 1).value)
  {
  }

  /** A run that reached row `T` steps from it to row `T + 1`. */
  lemma {:induction false} RowAtNext(invs: seq<Inventory>, flows: seq<Flow>, vars: seq<Variable>, start: real, step: real, T: nat)
    requires RowAt(invs, flows, vars, start, step, T).Returned?
    ensures RowAt(invs, flows, vars, start, step, T + 1)
              == NextRow(invs, flows, vars, TimeAt(start, step, T), step, RowAt(invs, flows, vars, start, step, T).value)
  {
  }

  /** A run that reached row `T > 0` reached row `T - 1`. */
  lemma {:induction false} RowAtBack(invs: seq<Inventory>, flows: seq<Flow>, vars: seq<Variable>, start: real, step: real, T: nat)
    requires T > 0 && RowAt(invs, flows, vars, start, step, T).Returned?
    ensures RowAt(invs, flows, vars, start, step, T - 1).Returned?
  {
    RowAtStep(invs, flows, vars, start, step, T);
  }

  /** A run that reached row `T` reached every earlier row. */
  lemma {:induction false} RowAtPrefix(invs: seq<Inventory>, flows: seq<Flow>, vars: seq<Variable>, start: real, step: real, T: nat, j: nat)
    requires RowAt(invs, flows, vars, start, step, T).Returned? && j <= T
    ensures RowAt(invs, flows, vars, start, step, j).Returned?
    decreases T
  {
    if j == T {
    } else {
      RowAtBack(invs, flows, vars, start, step, T);
      RowAtPrefix(invs, flows, vars, start, step, T - 1, j);
    }
  }

  /** The context variable `j` is evaluated on: the row's values, with the
      variables before it already replaced by their new values. */
  function SeenByVariable(invs: seq<Inventory>, flows: seq<Flow>, vars: seq<Variable>, row: Row, newVars: seq<real>, j: nat): Context
    requires Shaped(row, invs, flows, vars) && |newVars| == |vars| && j <= |vars|
  {
    Bind(RowContext(invs, flows, vars, row), VarNames(vars)[..j], newVars[..j])
  }

  /** With distinct names, the context after `j` variables holds the new
      values of the first `j` variables and the row's values of everything
      else. */
  lemma {:induction false} SeenValues(invs: seq<Inventory>, flows: seq<Flow>, vars: seq<Variable>, row: Row, newVars: seq<real>, j: nat)
    requires Distinct(invs, flows, vars) && Shaped(row, invs, flows, vars) && |newVars| == |vars| && j <= |vars|
    ensures var seen := SeenByVariable(invs, flows, vars, row, newVars, j);
            && (forall i :: 0 <= i < j ==> vars[i].name in seen && seen[vars[i].name] == newVars[i])
            && (forall i :: j <= i < |vars| ==> vars[i].name in seen && seen[vars[i].name] == row.vars[i])
            && (forall k :: 0 <= k < |invs| ==> invs[k].name in seen && seen[invs[k].name] == row.inv[k])
            && (forall i :: 0 <= i < |flows| ==> flows[i].name in seen && seen[flows[i].name] == row.flows[i])
  {
    var ctx := RowContext(invs, flows, vars, row);
    var names := VarNames(vars);
    RowContextAt(invs, flows, vars, row);
    BindAt(ctx, names[..j], newVars[..j]);
    BindDomain(ctx, names[..j], newVars[..j]);
    forall i | 0 <= i < j ensures names[..j][i] == vars[i].name && newVars[..j][i] == newVars[i] { }
    forall i | j <= i < |vars| ensures vars[i].name !in names[..j] {
      forall i' | 0 <= i' < j ensures names[..j][i'] != vars[i].name { assert names[i'] != names[i]; }
    }
    forall k | 0 <= k < |invs| ensures invs[k].name !in names[..j] {
      assert invs[k].name !in names;
    }
    forall i | 0 <= i < |flows| ensures flows[i].name !in names[..j] {
      assert flows[i].name !in names;
    }
  }

  /** In the variable pass, variable `j` returned its new value on the
      context holding the new values of the variables before it. */
  lemma {:induction false} PassOrder(vars: seq<Variable>, t: real, ctx: Context, j: nat)
    requires EvalVars(vars, t, ctx).Returned? && j < |vars|
    ensures var vals := EvalVars(vars, t, ctx).value.0;
            vars[j].f(t, Bind(ctx, VarNames(vars)[..j], vals[..j])) == Returned(vals[j])
  {
    EvalVarsPrefix(vars, t, ctx, j);
    EvalVarsContext(vars[..j], t, ctx);
    assert VarNames(vars[..j]) == VarNames(vars)[..j];
  }

  /** Registration order decides what a variable sees: the new values of
      the variables declared before it, the previous row's values of itself
      and those declared after it, and the previous row's inventories and
      flows. */
  lemma {:induction false} VariableOrder(invs: seq<Inventory>, flows: seq<Flow>, vars: seq<Variable>, t: real, step: real, row: Row, j: nat)
    requires Distinct(invs, flows, vars) && Shaped(row, invs, flows, vars)
    requires NextRow(invs, flows, vars, t, step, row).Returned? && j < |vars|
    ensures var next := NextRow(invs, flows, vars, t, step, row).value;
            var seen := SeenByVariable(invs, flows, vars, row, next.vars, j);
            && vars[j].f(t, seen) == Returned(next.vars[j])
            && (forall i :: 0 <= i < j ==> vars[i].name in seen && seen[vars[i].name] == next.vars[i])
            && (forall i :: j <= i < |vars| ==> vars[i].name in seen && seen[vars[i].name] == row.vars[i])
            && (forall k :: 0 <= k < |invs| ==> invs[k].name in seen && seen[invs[k].name] == row.inv[k])
            && (forall i :: 0 <= i < |flows| ==> flows[i].name in seen && seen[flows[i].name] == row.flows[i])
  {
    NextRowParts(invs, flows, vars, t, step, row);
    var next := NextRow(invs, flows, vars, t, step, row).value;
    PassOrder(vars, t, RowContext(invs, flows, vars, row), j);
    SeenValues(invs, flows, vars, row, next.vars, j);
  }

  /** The context every flow is evaluated on: the row's values with every
      variable replaced by its new value. */
  function SeenByFlows(invs: seq<Inventory>, flows: seq<Flow>, vars: seq<Variable>, row: Row, newVars: seq<real>): Context
    requires Shaped(row, invs, flows, vars) && |newVars| == |vars|
  {
    Bind(RowContext(invs, flows, vars, row), VarNames(vars), newVars)
  }

  /** The one-step lag of flows: every flow sees the previous row's value of
      every flow (never a value computed in the same pass), the previous
      row's inventories and all the new variable values; a `None` result
      is stored as zero. */
  lemma {:induction false} FlowLag(invs: seq<Inventory>, flows: seq<Flow>, vars: seq<Variable>, t: real, step: real, row: Row)
    requires Distinct(invs, flows, vars) && Shaped(row, invs, flows, vars)
    requires NextRow(invs, flows, vars, t, step, row).Returned?
    ensures var next := NextRow(invs, flows, vars, t, step, row).value;
            var seen := SeenByFlows(invs, flows, vars, row, next.vars);
            && (forall j :: 0 <= j < |flows| ==>
                  && flows[j].f.Some? && flows[j].f.value(t, seen).Returned?
                  && next.flows[j] == RateOf(flows[j].f.value(t, seen).value))
            && (forall i :: 0 <= i < |flows| ==> flows[i].name in seen && seen[flows[i].name] == row.flows[i])
            && (forall i :: 0 <= i < |vars| ==> vars[i].name in seen && seen[vars[i].name] == next.vars[i])
            && (forall k :: 0 <= k < |invs| ==> invs[k].name in seen && seen[invs[k].name] == row.inv[k])
  {
    var ctx := RowContext(invs, flows, vars, row);
    NextRowParts(invs, flows, vars, t, step, row);
    var next := NextRow(invs, flows, vars, t, step, row).value;
    EvalVarsContext(vars, t, ctx);
    EvalFlowsSpec(flows, t, EvalVars(vars, t, ctx).value.1);
    SeenValues(invs, flows, vars, row, next.vars, |vars|);
    assert VarNames(vars)[..|vars|] == VarNames(vars);
    assert next.vars[..|vars|] == next.vars;
  }

  /** The update rule: an inventory moves by its incoming minus its outgoing
      flow results times the step; the update fails only when a listed
      flow has no result. */
  lemma {:induction false} EulerRule(invs: seq<Inventory>, flows: seq<Flow>, levels: seq<real>, rates: seq<real>, newVars: seq<real>, step: real)
    requires |levels| == |invs| && |rates| == |flows|
    ensures Advance(invs, flows, levels, rates, newVars, step).Returned? <==> AllResolve(invs, Results(flows, rates))
    ensures Advance(invs, flows, levels, rates, newVars, step).Returned? ==>
              forall k :: 0 <= k < |invs| ==>
                Advance(invs, flows, levels, rates, newVars, step).value.inv[k]
                  == levels[k] + Moved(Delta(invs[k], Results(flows, rates)), step)
  {
  }

  /** One step leaves an inventory that lists no flow where it was. */
  lemma {:induction false} StepKeepsUnlinked(invs: seq<Inventory>, flows: seq<Flow>, vars: seq<Variable>, t: real, step: real, row: Row, k: nat)
    requires Shaped(row, invs, flows, vars) && NextRow(invs, flows, vars, t, step, row).Returned?
    requires k < |invs| && invs[k].outs == [] && invs[k].ins == []
    ensures NextRow(invs, flows, vars, t, step, row).value.inv[k] == row.inv[k]
  {
    NextRowParts(invs, flows, vars, t, step, row);
    var next := NextRow(invs, flows, vars, t, step, row).value;
    EulerRule(invs, flows, row.inv, next.flows, next.vars, step);
    assert Delta(invs[k], Results(flows, next.flows)) == 0.0;
    assert Moved(0.0, step) == 0.0;
  }

  lemma {:induction false} RowAtKeepsUnlinked(invs: seq<Inventory>, flows: seq<Flow>, vars: seq<Variable>, start: real, step: real, T: nat, k: nat)
    requires k < |invs| && invs[k].outs == [] && invs[k].ins == []
    requires T > 0 && RowAt(invs, flows, vars, start, step, T).Returned?
    ensures RowAt(invs, flows, vars, start, step, T - 1).Returned?
    ensures RowAt(invs, flows, vars, start, step, T).value.inv[k] == RowAt(invs, flows, vars, start, step, T - 1).value.inv[k]
  {
    RowAtStep(invs, flows, vars, start, step, T);
    StepKeepsUnlinked(invs, flows, vars, TimeAt(start, step, T - 1), step, RowAt(invs, flows, vars, start, step, T - 1).value, k);
  }

  /** An inventory that lists no flow keeps its initial value in every row
      the run reaches. */
  lemma {:induction false} UnlinkedInventoryConstant(invs: seq<Inventory>, flows: seq<Flow>, vars: seq<Variable>,
                                                     start: real, step: real, T: nat, k: nat)
    requires k < |invs| && invs[k].outs == [] && invs[k].ins == []
    requires RowAt(invs, flows, vars, start, step, T).Returned?
    ensures RowAt(invs, flows, vars, start, step, T).value.inv[k] == invs[k].value
    decreases T
  {
    if T == 0 {
      assert RowAt(invs, flows, vars, start, step, 0) == Returned(InitialRow(invs, flows, vars));
    } else {
      RowAtKeepsUnlinked(invs, flows, vars, start, step, T, k);
      UnlinkedInventoryConstant(invs, flows, vars, start, step, T - 1, k);
    }
  }
}
