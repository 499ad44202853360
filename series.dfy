/** The stepping loop of a run as it works on its arrays: one time series
    per inventory, flow and variable, a row per step, and each step writing
    row `T + 1` from row `T`. Each pass is proved to compute what the
    corresponding function of `Stepper` describes. */
module Series {
  import opened Entities
  import opened Linker
  import opened Stepper

  /** Series `k` of `a` holds `vals[k]` at step `T`. */
  ghost predicate ColumnHolds(a: array2<real>, T: nat, vals: seq<real>)
    reads a
  {
    a.Length0 == |vals| && T < a.Length1 && forall k :: 0 <= k < |vals| ==> a[k, T] == vals[k]
  }

  /** The three groups of series hold `row` at step `T`. */
  ghost predicate RowHolds(Is: array2<real>, Fs: array2<real>, Vs: array2<real>, T: nat, row: Row)
    reads Is, Fs, Vs
  {
    ColumnHolds(Is, T, row.inv) && ColumnHolds(Fs, T, row.flows) && ColumnHolds(Vs, T, row.vars)
  }

  /** Only step `T` of the series of `a` may differ from `before`. */
  ghost predicate OnlyColumn(a: array2<real>, before: seq<seq<real>>, T: nat)
    reads a
  {
    && |before| == a.Length0
    && (forall k :: 0 <= k < a.Length0 ==> |before[k]| == a.Length1)
    && forall k, T' :: 0 <= k < a.Length0 && 0 <= T' < a.Length1 && T' != T ==> a[k, T'] == before[k][T']
  }

  /** The contents of `a`, series by series. */
  ghost function Contents(a: array2<real>): (r: seq<seq<real>>)
    reads a
    ensures |r| == a.Length0
    ensures forall k :: 0 <= k < a.Length0 ==> |r[k]| == a.Length1 && forall T :: 0 <= T < a.Length1 ==> r[k][T] == a[k, T]
  {
    seq(a.Length0, k requires 0 <= k < a.Length0 reads a => seq(a.Length1, T requires 0 <= T < a.Length1 reads a => a[k, T]))
  }

  /** One loop of `_make_model_dict`: `model[n] = series[n][T]` for each
      name in turn. */
  method BindColumn(model0: Context, names: seq<Name>, a: array2<real>, T: nat, ghost vals: seq<real>) returns (model: Context)
    requires |names| == |vals| && ColumnHolds(a, T, vals)
    ensures model == Bind(model0, names, vals)
  {
    model := model0;
    var k := 0;
    while k < |names|
      invariant 0 <= k <= |names|
      invariant model == Bind(model0, names[..k], vals[..k])
    {
      model := model[names[k] := a[k, T]];
      assert names[..k + 1][..k] == names[..k] && vals[..k + 1][..k] == vals[..k];
      k := k + 1;
    }
    assert names[..k] == names && vals[..k] == vals;
  }

  /** `a[k][T] = v`: one entry of step `T` written, every other entry kept. */
  method Put(a: array2<real>, k: nat, T: nat, v: real, ghost before: seq<seq<real>>)
    requires k < a.Length0 && T < a.Length1 && OnlyColumn(a, before, T)
    modifies a
    ensures OnlyColumn(a, before, T)
    ensures a[k, T] == v
    ensures forall k' :: 0 <= k' < a.Length0 && k' != k ==> a[k', T] == old(a[k', T])
  {
    a[k, T] := v;
  }

  /** `_make_model_dict`: the context of step `T`, inventories first, then
      flows, then variables. */
  method ModelDict(invs: seq<Inventory>, flows: seq<Flow>, vars: seq<Variable>,
                   Is: array2<real>, Fs: array2<real>, Vs: array2<real>, T: nat, ghost row: Row) returns (model: Context)
    requires Shaped(row, invs, flows, vars) && RowHolds(Is, Fs, Vs, T, row)
    ensures model == RowContext(invs, flows, vars, row)
  {
    model := BindColumn(map[], InvNames(invs), Is, T, row.inv);
    model := BindColumn(model, FlowNames(flows), Fs, T, row.flows);
    model := BindColumn(model, VarNames(vars), Vs, T, row.vars);
  }

  /** The variable loop of one step: each variable's callback sees the
      context so far, its value is written to step `T + 1` and bound in the
      context. A raising callback ends the step. */
  method VariablePass(vars: seq<Variable>, t: real, model0: Context, Vs: array2<real>, T: nat) returns (ok: bool, model: Context)
    requires Vs.Length0 == |vars| && T + 1 < Vs.Length1
    modifies Vs
    ensures ok <==> EvalVars(vars, t, model0).Returned?
    ensures ok ==> model == EvalVars(vars, t, model0).value.1 && ColumnHolds(Vs, T + 1, EvalVars(vars, t, model0).value.0)
    ensures OnlyColumn(Vs, old(Contents(Vs)), T + 1)
  {
    model := model0;
    ghost var vals: seq<real> := [];
    ghost var before := Contents(Vs);
    var i := 0;
    while i < |vars|
      invariant 0 <= i <= |vars| && |vals| == i
      invariant EvalVars(vars[..i], t, model0) == Returned((vals, model))
      invariant forall i' :: 0 <= i' < i ==> Vs[i', T + 1] == vals[i']
      invariant OnlyColumn(Vs, before, T + 1)
    {
      assert vars[..i + 1][..i] == vars[..i];
      var r := vars[i].f(t, model);
      if r.Raised? {
        assert EvalVars(vars[..i + 1], t, model0).Raised?;
        if EvalVars(vars, t, model0).Returned? {
          EvalVarsPrefix(vars, t, model0, i);
        }
        return false, model;
      }
      Put(Vs, i, T + 1, r.value, before);
      model := model[vars[i].name := r.value];
      vals := vals + [r.value];
      i := i + 1;
    }
    assert vars[..i] == vars;
    ok := true;
  }

  /** The flow loop of one step: every callback sees the same context, a
      `None` result counts as zero, each result is written to step `T + 1`
      and stored in `results`. A missing or raising callback ends the step. */
  method FlowPass(flows: seq<Flow>, t: real, model: Context, Fs: array2<real>, T: nat) returns (ok: bool, results: map<Name, real>)
    requires Fs.Length0 == |flows| && T + 1 < Fs.Length1
    modifies Fs
    ensures ok <==> EvalFlows(flows, t, model).Returned?
    ensures ok ==> results == Results(flows, EvalFlows(flows, t, model).value)
                   && ColumnHolds(Fs, T + 1, EvalFlows(flows, t, model).value)
    ensures OnlyColumn(Fs, old(Contents(Fs)), T + 1)
  {
    results := map[];
    ghost var rates: seq<real> := [];
    ghost var before := Contents(Fs);
    var j := 0;
    while j < |flows|
      invariant FlowsDone(flows, t, model, Fs, T, before, j, rates, results)
    {
      ok, results, rates := FlowNext(flows, t, model, Fs, T, before, j, rates, results);
      if !ok {
        return;
      }
      j := j + 1;
    }
    assert flows[..|flows|] == flows;
    assert FlowNames(flows)[..|FlowNames(flows)|] == FlowNames(flows);
    ok := true;
  }

  /** The flow loop after `j` flows: their rates computed, written to step
      `T + 1` and stored in `results`. */
  ghost predicate FlowsDone(flows: seq<Flow>, t: real, model: Context, Fs: array2<real>, T: nat,
                            before: seq<seq<real>>, j: nat, rates: seq<real>, results: map<Name, real>)
    reads Fs
  {
    && Fs.Length0 == |flows| && T + 1 < Fs.Length1
    && j <= |flows| && |rates| == j
    && EvalFlows(flows[..j], t, model) == Returned(rates)
    && results == Bind(map[], FlowNames(flows)[..j], rates)
    && (forall j' :: 0 <= j' < j ==> Fs[j', T + 1] == rates[j'])
    && OnlyColumn(Fs, before, T + 1)
  }

  /** One iteration of the flow loop. */
  method FlowNext(flows: seq<Flow>, t: real, model: Context, Fs: array2<real>, T: nat,
                  ghost before: seq<seq<real>>, j: nat, ghost rates: seq<real>, results: map<Name, real>)
    returns (ok: bool, results': map<Name, real>, ghost rates': seq<real>)
    requires j < |flows| && FlowsDone(flows, t, model, Fs, T, before, j, rates, results)
    modifies Fs
    ensures ok ==> FlowsDone(flows, t, model, Fs, T, before, j + 1, rates', results')
    ensures !ok ==> EvalFlows(flows, t, model).Raised? && OnlyColumn(Fs, before, T + 1)
  {
    var returned, r := CallFlow(flows[j], t, model);
    if !returned {
      FlowPassFails(flows, t, model, j);
      return false, results, rates;
    }
    EvalFlowsNext(flows, t, model, j, rates);
    BindNext(FlowNames(flows), rates, j, r);
    Put(Fs, j, T + 1, r, before);
    results' := results[flows[j].name := r];
    rates' := rates + [r];
    ok := true;
  }

  /** One flow of the loop: its callback called on the context, `None`
      read as zero. `returned` is false when the flow has no callback or
      the callback raises. */
  method CallFlow(fl: Flow, t: real, model: Context) returns (returned: bool, r: real)
    ensures returned <==> fl.f.Some? && fl.f.value(t, model).Returned?
    ensures returned ==> r == RateOf(fl.f.value(t, model).value)
  {
    if fl.f.None? {
      return false, 0.0;
    }
    var o := fl.f.value(t, model);
    if o.Raised? {
      return false, 0.0;
    }
    r := if o.value.None? then 0.0 else o.value.value;
    returned := true;
  }

  /** The flow pass over one more flow whose callback returns. */
  lemma {:induction false} EvalFlowsNext(flows: seq<Flow>, t: real, ctx: Context, j: nat, rates: seq<real>)
    requires j < |flows| && EvalFlows(flows[..j], t, ctx) == Returned(rates)
    requires flows[j].f.Some? && flows[j].f.value(t, ctx).Returned?
    ensures EvalFlows(flows[..j + 1], t, ctx) == Returned(rates + [RateOf(flows[j].f.value(t, ctx).value)])
  {
    assert flows[..j + 1][..j] == flows[..j];
  }

  /** Binding one more name. */
  lemma {:induction false} BindNext(names: seq<Name>, vals: seq<real>, j: nat, r: real)
    requires j < |names| && j == |vals|
    ensures Bind(map[], names[..j + 1], vals + [r]) == Bind(map[], names[..j], vals)[names[j] := r]
  {
    assert names[..j + 1][..j] == names[..j];
    assert (vals + [r])[..j] == vals;
  }

  /** A flow without a callback, or whose callback raises, makes the pass raise. */
  lemma {:induction false} FlowPassFails(flows: seq<Flow>, t: real, ctx: Context, j: nat)
    requires j < |flows| && (flows[j].f.None? || flows[j].f.value(t, ctx).Raised?)
    ensures EvalFlows(flows, t, ctx).Raised?
  {
    EvalFlowsSpec(flows, t, ctx);
  }

  /** The inventory loop of one step: `dI` starts at zero, loses every
      outgoing result, gains every incoming one, and step `T + 1` becomes
      step `T` plus `dI` times the step. A listed flow without a result
      ends the step. */
  method InventoryPass(invs: seq<Inventory>, results: map<Name, real>, Is: array2<real>, T: nat, step: real) returns (ok: bool)
    requires Is.Length0 == |invs| && T + 1 < Is.Length1
    modifies Is
    ensures ok <==> AllResolve(invs, results)
    ensures ok ==> forall k :: 0 <= k < |invs| ==> Is[k, T + 1] == old(Is[k, T]) + Moved(Delta(invs[k], results), step)
    ensures OnlyColumn(Is, old(Contents(Is)), T + 1)
  {
    ghost var before := Contents(Is);
    var k := 0;
    while k < |invs|
      invariant 0 <= k <= |invs|
      invariant forall k' :: 0 <= k' < k ==> Resolves(invs[k'], results)
      invariant forall k' :: 0 <= k' < k ==> Is[k', T + 1] == before[k'][T] + Moved(Delta(invs[k'], results), step)
      invariant OnlyColumn(Is, before, T + 1)
    {
      var okk, dI := Change(invs[k], results);
      if !okk {
        return false;
      }
      Put(Is, k, T + 1, Is[k, T] + Moved(dI, step), before);
      k := k + 1;
    }
    ok := true;
  }

  /** The `dI` of one inventory: its outgoing results subtracted, then its
      incoming results added; `ok` is false at the first missing result. */
  method Change(inv: Inventory, results: map<Name, real>) returns (ok: bool, dI: real)
    ensures ok <==> Resolves(inv, results)
    ensures ok ==> dI == Delta(inv, results)
  {
    dI := 0.0;
    var m := 0;
    while m < |inv.outs|
      invariant 0 <= m <= |inv.outs|
      invariant forall x :: x in inv.outs[..m] ==> x in results
      invariant dI == -SumRates(inv.outs[..m], results)
    {
      if inv.outs[m] !in results {
        return false, dI;
      }
      assert inv.outs[..m + 1][..m] == inv.outs[..m];
      dI := dI - results[inv.outs[m]];
      m := m + 1;
    }
    assert inv.outs[..m] == inv.outs;
    m := 0;
    while m < |inv.ins|
      invariant 0 <= m <= |inv.ins|
      invariant forall x :: x in inv.ins[..m] ==> x in results
      invariant dI == SumRates(inv.ins[..m], results) - SumRates(inv.outs, results)
    {
      if inv.ins[m] !in results {
        return false, dI;
      }
      assert inv.ins[..m + 1][..m] == inv.ins[..m];
      dI := dI + results[inv.ins[m]];
      m := m + 1;
    }
    assert inv.ins[..m] == inv.ins;
    ok := true;
  }

  /** One iteration of the run loop: the context of step `T`, the variable
      pass, the flow pass and the inventory pass, writing step `T + 1`.
      The step raises exactly when the row function does. */
  method StepRow(invs: seq<Inventory>, flows: seq<Flow>, vars: seq<Variable>,
                 Is: array2<real>, Fs: array2<real>, Vs: array2<real>, T: nat, t: real, step: real, ghost row: Row)
    returns (ok: bool)
    requires Shaped(row, invs, flows, vars) && RowHolds(Is, Fs, Vs, T, row)
    requires T + 1 < Is.Length1 && T + 1 < Fs.Length1 && T + 1 < Vs.Length1
    requires Is != Fs && Fs != Vs && Is != Vs
    modifies Is, Fs, Vs
    ensures ok <==> NextRow(invs, flows, vars, t, step, row).Returned?
    ensures ok ==> RowHolds(Is, Fs, Vs, T + 1, NextRow(invs, flows, vars, t, step, row).value)
    ensures OnlyColumn(Is, old(Contents(Is)), T + 1)
    ensures OnlyColumn(Fs, old(Contents(Fs)), T + 1)
    ensures OnlyColumn(Vs, old(Contents(Vs)), T + 1)
  {
    var model := ModelDict(invs, flows, vars, Is, Fs, Vs, T, row);
    var okv, seen := VariablePass(vars, t, model, Vs, T);
    if !okv {
      return false;
    }
    var okf, results := FlowPass(flows, t, seen, Fs, T);
    if !okf {
      return false;
    }
    ghost var rates := EvalFlows(flows, t, seen).value;
    ok := InventoryPass(invs, results, Is, T, step);
    assert forall k :: 0 <= k < |invs| ==> old(Is[k, T]) == row.inv[k];
  }

  /** `t = start + T * step`. */
  method Clock(start: real, step: real, T: nat) returns (t: real)
    ensures t == TimeAt(start, step, T)
  {
    t := start + T as real * step;
    TimeAtValue(start, step, T);
  }

  /** The row function of a registry, as a function of the step. */
  ghost function Rows(invs: seq<Inventory>, flows: seq<Flow>, vars: seq<Variable>, start: real, step: real): nat -> Outcome<Row>
  {
    (T: nat) => RowAt(invs, flows, vars, start, step, T)
  }

  /** `rows` are the first values `f` returns. */
  ghost predicate Agrees(f: nat -> Outcome<Row>, rows: seq<Row>)
  {
    forall T :: 0 <= T < |rows| ==> f(T) == Returned(rows[T])
  }

  lemma {:induction false} AgreesExtend(f: nat -> Outcome<Row>, rows: seq<Row>, row: Row)
    requires Agrees(f, rows) && f(|rows|) == Returned(row)
    ensures Agrees(f, rows + [row])
  {
    var rows' := rows + [row];
    forall T | 0 <= T < |rows'|
      ensures f(T) == Returned(rows'[T])
    {
      if T < |rows| {
        assert rows'[T] == rows[T];
      }
    }
  }

  /** `rows` are the first rows the row function reaches. */
  ghost predicate Reached(invs: seq<Inventory>, flows: seq<Flow>, vars: seq<Variable>, start: real, step: real, rows: seq<Row>)
  {
    Agrees(Rows(invs, flows, vars, start, step), rows)
  }

  /** The row after the reached ones is the step from the last of them. */
  lemma {:induction false} ReachedNext(invs: seq<Inventory>, flows: seq<Flow>, vars: seq<Variable>, start: real, step: real, rows: seq<Row>)
    requires 0 < |rows| && Reached(invs, flows, vars, start, step, rows)
    ensures RowAt(invs, flows, vars, start, step, |rows|)
              == NextRow(invs, flows, vars, TimeAt(start, step, |rows| - 1), step, rows[|rows| - 1])
  {
    var n := |rows| - 1;
    assert Rows(invs, flows, vars, start, step)(n) == Returned(rows[n]);
    RowAtNext(invs, flows, vars, start, step, n);
  }

  /** The last reached row has the shape of the registry, and the next row
      is the step from it. */
  lemma {:induction false} ReachedLast(invs: seq<Inventory>, flows: seq<Flow>, vars: seq<Variable>, start: real, step: real, rows: seq<Row>)
    requires 0 < |rows| && Reached(invs, flows, vars, start, step, rows)
    ensures Shaped(rows[|rows| - 1], invs, flows, vars)
    ensures RowAt(invs, flows, vars, start, step, |rows|)
              == NextRow(invs, flows, vars, TimeAt(start, step, |rows| - 1), step, rows[|rows| - 1])
  {
    ReachedNext(invs, flows, vars, start, step, rows);
    assert Rows(invs, flows, vars, start, step)(|rows| - 1) == Returned(rows[|rows| - 1]);
  }

  /** A reached row extends the reached rows. */
  lemma {:induction false} ReachedExtend(invs: seq<Inventory>, flows: seq<Flow>, vars: seq<Variable>, start: real, step: real,
                                         rows: seq<Row>, row: Row)
    requires Reached(invs, flows, vars, start, step, rows)
    requires RowAt(invs, flows, vars, start, step, |rows|) == Returned(row)
    ensures Reached(invs, flows, vars, start, step, rows + [row])
  {
    AgreesExtend(Rows(invs, flows, vars, start, step), rows, row);
  }

  /** Once a step raises, no later row is reached. */
  lemma {:induction false} RaisedStops(invs: seq<Inventory>, flows: seq<Flow>, vars: seq<Variable>, start: real, step: real, T: nat, last: nat)
    requires RowAt(invs, flows, vars, start, step, T).Raised? && T <= last
    ensures RowAt(invs, flows, vars, start, step, last).Raised?
  {
    if RowAt(invs, flows, vars, start, step, last).Returned? {
      RowAtPrefix(invs, flows, vars, start, step, last, T);
    }
  }

  /** The series hold `rows` at their first steps. */
  ghost predicate SeriesHold(Is: array2<real>, Fs: array2<real>, Vs: array2<real>, rows: seq<Row>)
    reads Is, Fs, Vs
  {
    forall T :: 0 <= T < |rows| ==> RowHolds(Is, Fs, Vs, T, rows[T])
  }

  /** `c[k][T] == vals[k]` for every series `k` of the snapshot `c`. */
  ghost predicate StepIn(c: seq<seq<real>>, T: nat, vals: seq<real>)
  {
    |c| == |vals| && forall k :: 0 <= k < |vals| ==> T < |c[k]| && c[k][T] == vals[k]
  }

  /** The snapshots hold `rows` at their first steps. */
  ghost predicate HeldIn(ci: seq<seq<real>>, cf: seq<seq<real>>, cv: seq<seq<real>>, rows: seq<Row>)
  {
    forall T :: 0 <= T < |rows| ==> StepIn(ci, T, rows[T].inv) && StepIn(cf, T, rows[T].flows) && StepIn(cv, T, rows[T].vars)
  }

  lemma {:induction false} Snapshot(Is: array2<real>, Fs: array2<real>, Vs: array2<real>, rows: seq<Row>)
    requires SeriesHold(Is, Fs, Vs, rows)
    ensures HeldIn(Contents(Is), Contents(Fs), Contents(Vs), rows)
  {
  }

  /** Writing a later step leaves the rows already held in place. */
  lemma {:induction false} KeepRows(Is: array2<real>, Fs: array2<real>, Vs: array2<real>,
                                    ci: seq<seq<real>>, cf: seq<seq<real>>, cv: seq<seq<real>>, rows: seq<Row>, T: nat)
    requires HeldIn(ci, cf, cv, rows) && |rows| <= T && T < Is.Length1 && T < Fs.Length1 && T < Vs.Length1
    requires OnlyColumn(Is, ci, T) && OnlyColumn(Fs, cf, T) && OnlyColumn(Vs, cv, T)
    ensures SeriesHold(Is, Fs, Vs, rows)
  {
    forall T' | 0 <= T' < |rows|
      ensures RowHolds(Is, Fs, Vs, T', rows[T'])
    {
      assert StepIn(ci, T', rows[T'].inv) && StepIn(cf, T', rows[T'].flows) && StepIn(cv, T', rows[T'].vars);
    }
  }

  /** A row held at the next step extends the held rows. */
  lemma {:induction false} HoldNext(Is: array2<real>, Fs: array2<real>, Vs: array2<real>, rows: seq<Row>, row: Row)
    requires SeriesHold(Is, Fs, Vs, rows) && RowHolds(Is, Fs, Vs, |rows|, row)
    ensures SeriesHold(Is, Fs, Vs, rows + [row])
  {
  }

  /** `StepRow` on the series that hold `rows`: they keep holding them,
      and when the step returns the new step holds the next row. */
  method StepHeld(invs: seq<Inventory>, flows: seq<Flow>, vars: seq<Variable>,
                  Is: array2<real>, Fs: array2<real>, Vs: array2<real>, T: nat, t: real, step: real, ghost rows: seq<Row>)
    returns (ok: bool)
    requires |rows| == T + 1 && Shaped(rows[T], invs, flows, vars) && SeriesHold(Is, Fs, Vs, rows)
    requires |rows| < Is.Length1 && |rows| < Fs.Length1 && |rows| < Vs.Length1
    requires Is != Fs && Fs != Vs && Is != Vs
    modifies Is, Fs, Vs
    ensures ok <==> NextRow(invs, flows, vars, t, step, rows[T]).Returned?
    ensures SeriesHold(Is, Fs, Vs, rows)
    ensures ok ==> SeriesHold(Is, Fs, Vs, rows + [NextRow(invs, flows, vars, t, step, rows[T]).value])
  {
    ghost var ci, cf, cv := Contents(Is), Contents(Fs), Contents(Vs);
    Snapshot(Is, Fs, Vs, rows);
    ok := StepRow(invs, flows, vars, Is, Fs, Vs, T, t, step, rows[T]);
    KeepRows(Is, Fs, Vs, ci, cf, cv, rows, |rows|);
    if ok {
      HoldNext(Is, Fs, Vs, rows, NextRow(invs, flows, vars, t, step, rows[T]).value);
    }
  }

  /** `StepHeld` from the rows reached so far, at the time of the last of
      them: the new step holds the next reached row, when it returns. */
  method StepReached(invs: seq<Inventory>, flows: seq<Flow>, vars: seq<Variable>,
                     Is: array2<real>, Fs: array2<real>, Vs: array2<real>, T: nat, start: real, t: real, step: real,
                     ghost rows: seq<Row>)
    returns (ok: bool)
    requires |rows| == T + 1 && t == TimeAt(start, step, T)
    requires Reached(invs, flows, vars, start, step, rows) && SeriesHold(Is, Fs, Vs, rows)
    requires |rows| < Is.Length1 && |rows| < Fs.Length1 && |rows| < Vs.Length1
    requires Is != Fs && Fs != Vs && Is != Vs
    modifies Is, Fs, Vs
    ensures ok <==> RowAt(invs, flows, vars, start, step, T + 1).Returned?
    ensures SeriesHold(Is, Fs, Vs, rows)
    ensures ok ==> && Reached(invs, flows, vars, start, step, rows + [RowAt(invs, flows, vars, start, step, T + 1).value])
                   && SeriesHold(Is, Fs, Vs, rows + [RowAt(invs, flows, vars, start, step, T + 1).value])
  {
    ReachedLast(invs, flows, vars, start, step, rows);
    ok := StepHeld(invs, flows, vars, Is, Fs, Vs, T, t, step, rows);
    HeldReached(invs, flows, vars, Is, Fs, Vs, T, start, t, step, rows, ok);
  }

  /** What `StepHeld` promises, restated for the row function. */
  lemma {:induction false} HeldReached(invs: seq<Inventory>, flows: seq<Flow>, vars: seq<Variable>,
                                       Is: array2<real>, Fs: array2<real>, Vs: array2<real>, T: nat, start: real, t: real, step: real,
                                       rows: seq<Row>, ok: bool)
    requires |rows| == T + 1 && t == TimeAt(start, step, T)
    requires Reached(invs, flows, vars, start, step, rows) && Shaped(rows[T], invs, flows, vars)
    requires ok <==> NextRow(invs, flows, vars, t, step, rows[T]).Returned?
    requires ok ==> SeriesHold(Is, Fs, Vs, rows + [NextRow(invs, flows, vars, t, step, rows[T]).value])
    ensures ok <==> RowAt(invs, flows, vars, start, step, T + 1).Returned?
    ensures ok ==> && Reached(invs, flows, vars, start, step, rows + [RowAt(invs, flows, vars, start, step, T + 1).value])
                   && SeriesHold(Is, Fs, Vs, rows + [RowAt(invs, flows, vars, start, step, T + 1).value])
  {
    ReachedNext(invs, flows, vars, start, step, rows);
    if ok {
      ReachedExtend(invs, flows, vars, start, step, rows, RowAt(invs, flows, vars, start, step, T + 1).value);
    }
  }

  /** Held rows that are the reached rows are the row function's rows. */
  lemma {:induction false} HeldAreReached(invs: seq<Inventory>, flows: seq<Flow>, vars: seq<Variable>, start: real, step: real,
                                          Is: array2<real>, Fs: array2<real>, Vs: array2<real>, rows: seq<Row>)
    requires Reached(invs, flows, vars, start, step, rows) && SeriesHold(Is, Fs, Vs, rows)
    ensures forall T :: 0 <= T < |rows| ==>
              RowAt(invs, flows, vars, start, step, T).Returned?
              && RowHolds(Is, Fs, Vs, T, RowAt(invs, flows, vars, start, step, T).value)
  {
    forall T | 0 <= T < |rows|
      ensures RowAt(invs, flows, vars, start, step, T) == Returned(rows[T])
    {
      assert Rows(invs, flows, vars, start, step)(T) == Returned(rows[T]);
    }
  }

  /** Python's `int()` of a real: truncation toward zero. */
  function Trunc(x: real): (r: int)
    ensures x >= 0.0 ==> 0 <= r && r as real <= x < r as real + 1.0
    ensures x < 0.0 ==> r <= 0 && r as real - 1.0 < x <= r as real
  {
    if x >= 0.0 then x.Floor else -((-x).Floor)
  }

  /** The number of rows of a run, `int((stop - start) / step) + 1`; the
      division raises for a zero step. */
  function StepCount(start: real, stop: real, step: real): (r: Option<int>)
    ensures r.None? <==> step == 0.0
    ensures r.Some? && (stop - start) / step >= 0.0 ==>
              1 <= r.value && (r.value - 1) as real <= (stop - start) / step < r.value as real
    ensures r.Some? && (stop - start) / step < 0.0 ==>
              r.value <= 1 && r.value as real - 2.0 < (stop - start) / step <= (r.value - 1) as real
  {
    if step == 0.0 then None else Some(Trunc((stop - start) / step) + 1)
  }

  lemma {:induction false} Scale(a: real, b: real, s: real)
    requires a <= b && s > 0.0
    ensures a * s <= b * s
  {
  }

  lemma {:induction false} ScaleStrict(a: real, b: real, s: real)
    requires a < b && s > 0.0
    ensures a * s < b * s
  {
  }

  /** For a forward run the rows cover `[start, stop]`: the last row's time
      is at most `stop`, and one more step would pass it. */
  lemma {:induction false} StepCountCovers(start: real, stop: real, step: real)
    requires step > 0.0 && start <= stop
    ensures StepCount(start, stop, step).Some? && StepCount(start, stop, step).value >= 1
    ensures var N := StepCount(start, stop, step).value as nat;
            TimeAt(start, step, N - 1) <= stop < TimeAt(start, step, N)
  {
    var q := (stop - start) / step;
    assert q * step == stop - start;
    var N := q.Floor + 1;
    assert StepCount(start, stop, step) == Some(N);
    var lo := (N - 1) as real * step;
    var hi := N as real * step;
    Scale((N - 1) as real, q, step);
    assert q < N as real;
    assert q < q.Floor as real + 1.0;
    ScaleStrict(q, N as real, step);
    assert q * step < hi;
    assert lo <= stop - start < hi;
    TimeAtValue(start, step, N - 1);
    TimeAtValue(start, step, N);
  }

  /** The series of a run over `N` steps: every inventory's series filled
      with its initial value, every flow's and variable's with zeros. */
  method Allocate(invs: seq<Inventory>, flows: seq<Flow>, vars: seq<Variable>, N: nat)
    returns (Is: array2<real>, Fs: array2<real>, Vs: array2<real>)
    ensures fresh(Is) && fresh(Fs) && fresh(Vs) && Is != Fs && Fs != Vs && Is != Vs
    ensures Is.Length0 == |invs| && Fs.Length0 == |flows| && Vs.Length0 == |vars|
    ensures Is.Length1 == N && Fs.Length1 == N && Vs.Length1 == N
    ensures forall k, T :: 0 <= k < |invs| && 0 <= T < N ==> Is[k, T] == invs[k].value
    ensures forall j, T :: 0 <= j < |flows| && 0 <= T < N ==> Fs[j, T] == 0.0
    ensures forall i, T :: 0 <= i < |vars| && 0 <= T < N ==> Vs[i, T] == 0.0
  {
    Is := new real[|invs|, N]((k, T) requires 0 <= k < |invs| => invs[k].value);
    Fs := new real[|flows|, N]((j, T) => 0.0);
    Vs := new real[|vars|, N]((i, T) => 0.0);
  }

  /** The stepping loop over series that hold the initial row: it stops at
      the first step that raises, and otherwise fills every step. */
  method Steps(invs: seq<Inventory>, flows: seq<Flow>, vars: seq<Variable>, start: real, step: real,
               Is: array2<real>, Fs: array2<real>, Vs: array2<real>)
    returns (ok: bool, ghost rows: seq<Row>)
    requires 0 < Is.Length1 && Fs.Length1 == Is.Length1 && Vs.Length1 == Is.Length1
    requires Is != Fs && Fs != Vs && Is != Vs
    requires SeriesHold(Is, Fs, Vs, [InitialRow(invs, flows, vars)])
    modifies Is, Fs, Vs
    ensures Reached(invs, flows, vars, start, step, rows) && SeriesHold(Is, Fs, Vs, rows)
    ensures ok <==> |rows| == Is.Length1
    ensures !ok ==> RowAt(invs, flows, vars, start, step, Is.Length1 - 1).Raised?
  {
    rows := [InitialRow(invs, flows, vars)];
    var T := 0;
    while T < Is.Length1 - 1
      invariant 0 <= T < Is.Length1 && |rows| == T + 1
      invariant Reached(invs, flows, vars, start, step, rows)
      invariant SeriesHold(Is, Fs, Vs, rows)
    {
      var t := Clock(start, step, T);
      ok := StepReached(invs, flows, vars, Is, Fs, Vs, T, start, t, step, rows);
      if !ok {
        RaisedStops(invs, flows, vars, start, step, T + 1, Is.Length1 - 1);
        return;
      }
      rows := rows + [RowAt(invs, flows, vars, start, step, T + 1).value];
      T := T + 1;
    }
    ok := true;
  }

  /** The run over `N` steps: allocate the series with the initial values
      (inventories) and zeros (flows and variables), then step from each
      row to the next. The run completes exactly when the row function
      reaches the last row, and then every row of the series is the row
      function's row. */
  method Run(invs: seq<Inventory>, flows: seq<Flow>, vars: seq<Variable>, start: real, step: real, N: nat)
    returns (ok: bool, Is: array2<real>, Fs: array2<real>, Vs: array2<real>)
    ensures fresh(Is) && fresh(Fs) && fresh(Vs) && Is != Fs && Fs != Vs && Is != Vs
    ensures Is.Length0 == |invs| && Fs.Length0 == |flows| && Vs.Length0 == |vars|
    ensures Is.Length1 == N && Fs.Length1 == N && Vs.Length1 == N
    ensures ok <==> N == 0 || RowAt(invs, flows, vars, start, step, N - 1).Returned?
    ensures ok ==> forall T :: 0 <= T < N ==>
                     RowAt(invs, flows, vars, start, step, T).Returned?
                     && RowHolds(Is, Fs, Vs, T, RowAt(invs, flows, vars, start, step, T).value)
  {
    Is, Fs, Vs := Allocate(invs, flows, vars, N);
    if N == 0 {
      return true, Is, Fs, Vs;
    }
    assert RowHolds(Is, Fs, Vs, 0, InitialRow(invs, flows, vars));
    ghost var rows;
    ok, rows := Steps(invs, flows, vars, start, step, Is, Fs, Vs);
    if ok {
      HeldAreReached(invs, flows, vars, start, step, Is, Fs, Vs, rows);
    }
  }
}
