/** Conservation under the Euler update: a flow with both endpoints takes
    from one inventory exactly what it gives to another, so the total over
    all inventories moves only by the flows with a single endpoint. */
module Conservation {
  import opened Entities
  import opened Linker
  import opened Stepper

  /** The sum of a sequence of levels. */
  function Total(xs: seq<real>): real
    decreases |xs|
  {
    if xs == [] then 0.0 else Total(xs[..|xs| - 1]) + xs[|xs| - 1]
  }

  /** The endpoint an inventory list follows: the sink for `in`, the source for `out`. */
  function End(fl: Flow, incoming: bool): Option<Name> {
    if incoming then fl.sink else fl.source
  }

  /** An inventory's `in` list or `out` list, as linking builds it. */
  function Linked(flows: seq<Flow>, inv: Name, incoming: bool): (r: seq<Name>)
    ensures forall m :: m in r ==> m in FlowNames(flows)
  {
    if incoming then Incoming(flows, inv) else Outgoing(flows, inv)
  }

  /** The rates of the flows whose chosen endpoint is `inv`, summed in order. */
  function FlowAt(flows: seq<Flow>, rates: seq<real>, inv: Name, incoming: bool): real
    requires |rates| == |flows|
    decreases |flows|
  {
    if flows == [] then 0.0
    else
      var n := |flows| - 1;
      FlowAt(flows[..n], rates[..n], inv, incoming) + if End(flows[n], incoming) == Some(inv) then rates[n] else 0.0
  }

  lemma {:induction false} SumRatesAppend(a: seq<Name>, b: seq<Name>, res: map<Name, real>)
    requires forall m :: m in a + b ==> m in res
    ensures SumRates(a + b, res) == SumRates(a, res) + SumRates(b, res)
    decreases |b|
  {
    if b != [] {
      var n := |b| - 1;
      assert (a + b)[..|a| + n] == a + b[..n];
      assert (a + b)[|a| + n] == b[n];
      SumRatesAppend(a, b[..n], res);
      assert SumRates(a + b, res) == SumRates(a + b[..n], res) + res[b[n]];
    } else {
      assert a + b == a;
    }
  }

  lemma {:induction false} SumRatesAgree(names: seq<Name>, r1: map<Name, real>, r2: map<Name, real>)
    requires forall m :: m in names ==> m in r1 && m in r2 && r1[m] == r2[m]
    ensures SumRates(names, r1) == SumRates(names, r2)
    decreases |names|
  {
    if names != [] {
      SumRatesAgree(names[..|names| - 1], r1, r2);
    }
  }

  /** Each flow's result is its rate. */
  lemma ResultsAt(flows: seq<Flow>, rates: seq<real>)
    requires Unique(FlowNames(flows)) && |rates| == |flows|
    ensures forall j :: 0 <= j < |flows| ==>
              flows[j].name in Results(flows, rates) && Results(flows, rates)[flows[j].name] == rates[j]
  {
    BindAt(map[], FlowNames(flows), rates);
  }

  /** Every flow an inventory is linked to has a result. */
  lemma LinkedResolve(flows: seq<Flow>, rates: seq<real>, inv: Name, incoming: bool)
    requires Unique(FlowNames(flows)) && |rates| == |flows|
    ensures forall m :: m in Linked(flows, inv, incoming) ==> m in Results(flows, rates)
  {
    ResultsAt(flows, rates);
    forall m | m in Linked(flows, inv, incoming) ensures m in Results(flows, rates) {
      var j := IndexOf(FlowNames(flows), m);
      assert flows[j].name == m;
    }
  }

  /** Dropping the last flow keeps the results of the others. */
  lemma ResultsPrefix(flows: seq<Flow>, rates: seq<real>, inv: Name, incoming: bool)
    requires Unique(FlowNames(flows)) && |rates| == |flows| && flows != []
    ensures Unique(FlowNames(flows[..|flows| - 1]))
    ensures forall m :: m in Linked(flows[..|flows| - 1], inv, incoming) ==>
              && m in Results(flows, rates) && m in Results(flows[..|flows| - 1], rates[..|flows| - 1])
              && Results(flows, rates)[m] == Results(flows[..|flows| - 1], rates[..|flows| - 1])[m]
  {
    var n := |flows| - 1;
    var pre := flows[..n];
    assert FlowNames(pre) == FlowNames(flows)[..n];
    ResultsAt(flows, rates);
    ResultsAt(pre, rates[..n]);
    forall m | m in Linked(pre, inv, incoming)
      ensures m in Results(flows, rates) && m in Results(pre, rates[..n]) && Results(flows, rates)[m] == Results(pre, rates[..n])[m]
    {
      var i := IndexOf(FlowNames(pre), m);
      assert pre[i] == flows[i] && rates[..n][i] == rates[i];
    }
  }

  /** Summing the results over an inventory's linked list adds up the rates
      of the flows that end at it. */
  lemma {:induction false} LinkedSum(flows: seq<Flow>, rates: seq<real>, inv: Name, incoming: bool)
    requires Unique(FlowNames(flows)) && |rates| == |flows|
    ensures forall m :: m in Linked(flows, inv, incoming) ==> m in Results(flows, rates)
    ensures SumRates(Linked(flows, inv, incoming), Results(flows, rates)) == FlowAt(flows, rates, inv, incoming)
    decreases |flows|
  {
    LinkedResolve(flows, rates, inv, incoming);
    if flows != [] {
      var n := |flows| - 1;
      var pre := flows[..n];
      var res := Results(flows, rates);
      ResultsPrefix(flows, rates, inv, incoming);
      LinkedSum(pre, rates[..n], inv, incoming);
      SumRatesAgree(Linked(pre, inv, incoming), res, Results(pre, rates[..n]));
      var tail := if End(flows[n], incoming) == Some(inv) then [flows[n].name] else [];
      var last := if End(flows[n], incoming) == Some(inv) then rates[n] else 0.0;
      LinkedLast(flows, inv, incoming);
      SumRatesAppend(Linked(pre, inv, incoming), tail, res);
      if tail != [] {
        LastResult(flows, rates);
        SumRatesSingle(flows[n].name, res);
      }
      calc {
        SumRates(Linked(flows, inv, incoming), res);
        SumRates(Linked(pre, inv, incoming), res) + SumRates(tail, res);
        SumRates(Linked(pre, inv, incoming), Results(pre, rates[..n])) + last;
        FlowAt(pre, rates[..n], inv, incoming) + last;
        FlowAt(flows, rates, inv, incoming);
      }
    }
  }

  /** The list of the last flow's endpoint ends with that flow. */
  lemma {:induction false} LinkedLast(flows: seq<Flow>, inv: Name, incoming: bool)
    requires flows != []
    ensures var n := |flows| - 1;
            Linked(flows, inv, incoming)
            == Linked(flows[..n], inv, incoming) + if End(flows[n], incoming) == Some(inv) then [flows[n].name] else []
  {
  }

  /** The last flow's result is its rate. */
  lemma {:induction false} LastResult(flows: seq<Flow>, rates: seq<real>)
    requires Unique(FlowNames(flows)) && |rates| == |flows| && flows != []
    ensures flows[|flows| - 1].name in Results(flows, rates)
    ensures Results(flows, rates)[flows[|flows| - 1].name] == rates[|flows| - 1]
  {
    ResultsAt(flows, rates);
  }

  lemma {:induction false} SumRatesSingle(m: Name, res: map<Name, real>)
    requires m in res
    ensures SumRates([m], res) == res[m]
  {
    assert [m][..0] == [];
  }

  /** `r` counted once for every name equal to the endpoint `e`. */
  function Indicator(names: seq<Name>, e: Option<Name>, r: real): real
    decreases |names|
  {
    if names == [] then 0.0
    else
      var n := |names| - 1;
      Indicator(names[..n], e, r) + if e == Some(names[n]) then r else 0.0
  }

  /** With distinct names an endpoint is counted at most once. */
  lemma {:induction false} IndicatorUnique(names: seq<Name>, e: Option<Name>, r: real)
    requires Unique(names)
    ensures Indicator(names, e, r) == if e.Some? && e.value in names then r else 0.0
    decreases |names|
  {
    if names != [] {
      var n := |names| - 1;
      assert Unique(names[..n]);
      IndicatorUnique(names[..n], e, r);
      assert names == names[..n] + [names[n]];
      if e == Some(names[n]) {
        assert e.value !in names[..n];
      }
    }
  }

  /** The flow rates ending at each named inventory, summed over the names. */
  function TotalFlowAt(names: seq<Name>, flows: seq<Flow>, rates: seq<real>, incoming: bool): real
    requires |rates| == |flows|
    decreases |names|
  {
    if names == [] then 0.0
    else
      var n := |names| - 1;
      TotalFlowAt(names[..n], flows, rates, incoming) + FlowAt(flows, rates, names[n], incoming)
  }

  /** The same double sum taken flow by flow. */
  function EndSum(names: seq<Name>, flows: seq<Flow>, rates: seq<real>, incoming: bool): real
    requires |rates| == |flows|
    decreases |flows|
  {
    if flows == [] then 0.0
    else
      var n := |flows| - 1;
      EndSum(names, flows[..n], rates[..n], incoming) + Indicator(names, End(flows[n], incoming), rates[n])
  }

  lemma {:induction false} TotalFlowAtLast(names: seq<Name>, flows: seq<Flow>, rates: seq<real>, incoming: bool)
    requires |rates| == |flows| && flows != []
    ensures var n := |flows| - 1;
            TotalFlowAt(names, flows, rates, incoming)
              == TotalFlowAt(names, flows[..n], rates[..n], incoming) + Indicator(names, End(flows[n], incoming), rates[n])
    decreases |names|
  {
    if names != [] {
      TotalFlowAtLast(names[..|names| - 1], flows, rates, incoming);
    }
  }

  /** Summing by inventory or by flow gives the same total. */
  lemma {:induction false} SwapSums(names: seq<Name>, flows: seq<Flow>, rates: seq<real>, incoming: bool)
    requires |rates| == |flows|
    ensures TotalFlowAt(names, flows, rates, incoming) == EndSum(names, flows, rates, incoming)
    decreases |flows|
  {
    if flows == [] {
      ZeroFlowAt(names, flows, rates, incoming);
    } else {
      var n := |flows| - 1;
      TotalFlowAtLast(names, flows, rates, incoming);
      SwapSums(names, flows[..n], rates[..n], incoming);
    }
  }

  lemma {:induction false} ZeroFlowAt(names: seq<Name>, flows: seq<Flow>, rates: seq<real>, incoming: bool)
    requires |rates| == |flows| && flows == []
    ensures TotalFlowAt(names, flows, rates, incoming) == 0.0
    decreases |names|
  {
    if names != [] {
      ZeroFlowAt(names[..|names| - 1], flows, rates, incoming);
    }
  }

  /** What the flows bring in from outside minus what they send outside:
      a flow with only a sink adds its rate, one with only a source
      removes it, one with both cancels. */
  function ExternalNet(flows: seq<Flow>, rates: seq<real>): real
    requires |rates| == |flows|
    decreases |flows|
  {
    if flows == [] then 0.0
    else
      var n := |flows| - 1;
      var fl := flows[n];
      ExternalNet(flows[..n], rates[..n])
        + if fl.sink.Some? && fl.source.None? then rates[n]
          else if fl.source.Some? && fl.sink.None? then -rates[n]
          else 0.0
  }

  /** With every endpoint a registered inventory, counting the flows at
      their sinks minus at their sources leaves the external net. */
  lemma {:induction false} EndSumsNet(names: seq<Name>, flows: seq<Flow>, rates: seq<real>)
    requires |rates| == |flows| && Unique(names)
    requires forall j :: 0 <= j < |flows| ==> Admissible(flows[j], names)
    ensures EndSum(names, flows, rates, true) - EndSum(names, flows, rates, false) == ExternalNet(flows, rates)
    decreases |flows|
  {
    if flows != [] {
      var n := |flows| - 1;
      assert forall j :: 0 <= j < n ==> flows[..n][j] == flows[j];
      EndSumsNet(names, flows[..n], rates[..n]);
      IndicatorUnique(names, flows[n].sink, rates[n]);
      IndicatorUnique(names, flows[n].source, rates[n]);
    }
  }

  /** The sum of every inventory's incoming minus outgoing results. */
  function DeltaTotal(invs: seq<Inventory>, res: map<Name, real>): real
    requires AllResolve(invs, res)
    decreases |invs|
  {
    if invs == [] then 0.0
    else
      var n := |invs| - 1;
      DeltaTotal(invs[..n], res) + Delta(invs[n], res)
  }

  /** `a[k]` moved by the rate `b[k]` over a step `s`, at every position. */
  function Affine(a: seq<real>, b: seq<real>, s: real): (r: seq<real>)
    requires |a| == |b|
    ensures |r| == |a|
  {
    seq(|a|, k requires 0 <= k < |a| => a[k] + Moved(b[k], s))
  }

  lemma {:induction false} TotalAffine(a: seq<real>, b: seq<real>, s: real)
    requires |a| == |b|
    ensures Total(Affine(a, b, s)) == Total(a) + Moved(Total(b), s)
    decreases |a|
  {
    if a != [] {
      var n := |a| - 1;
      var r := Affine(a, b, s);
      forall k | 0 <= k < n ensures r[k] == Affine(a[..n], b[..n], s)[k] {
        assert a[..n][k] == a[k] && b[..n][k] == b[k];
      }
      assert r[..n] == Affine(a[..n], b[..n], s);
      TotalAffine(a[..n], b[..n], s);
      var tb := Total(b[..n]);
      MovedAdds(tb, b[n], s);
    } else {
      assert Affine(a, b, s) == [];
    }
  }

  lemma MovedAdds(x: real, y: real, s: real)
    ensures Moved(x + y, s) == Moved(x, s) + Moved(y, s)
  {
  }

  /** Every inventory's change, in registry order. */
  function Deltas(invs: seq<Inventory>, res: map<Name, real>): (r: seq<real>)
    requires AllResolve(invs, res)
    ensures |r| == |invs|
  {
    seq(|invs|, k requires 0 <= k < |invs| => Delta(invs[k], res))
  }

  lemma AllResolvePrefix(invs: seq<Inventory>, res: map<Name, real>, n: nat)
    requires AllResolve(invs, res) && n <= |invs|
    ensures AllResolve(invs[..n], res)
  {
    forall k | 0 <= k < n ensures Resolves(invs[..n][k], res) {
      assert invs[..n][k] == invs[k];
    }
  }

  lemma {:induction false} TotalDeltas(invs: seq<Inventory>, res: map<Name, real>)
    requires AllResolve(invs, res)
    ensures Total(Deltas(invs, res)) == DeltaTotal(invs, res)
    decreases |invs|
  {
    if invs != [] {
      var n := |invs| - 1;
      AllResolvePrefix(invs, res, n);
      var ds := Deltas(invs, res);
      forall k | 0 <= k < n ensures ds[k] == Deltas(invs[..n], res)[k] {
        assert invs[..n][k] == invs[k];
      }
      assert ds[..n] == Deltas(invs[..n], res);
      TotalDeltas(invs[..n], res);
    }
  }

  /** The Euler update moves the total by the summed changes times the step. */
  lemma {:induction false} TotalEuler(invs: seq<Inventory>, levels: seq<real>, res: map<Name, real>, step: real)
    requires |levels| == |invs| && AllResolve(invs, res)
    ensures Total(Euler(invs, levels, res, step)) == Total(levels) + Moved(DeltaTotal(invs, res), step)
  {
    var ds := Deltas(invs, res);
    assert Euler(invs, levels, res, step) == Affine(levels, ds, step);
    TotalAffine(levels, ds, step);
    TotalDeltas(invs, res);
  }

  /** With every inventory linked, the summed changes are the flows counted
      at their sinks minus at their sources. */
  lemma {:induction false} DeltaTotalLinks(invs: seq<Inventory>, flows: seq<Flow>, rates: seq<real>)
    requires Unique(FlowNames(flows)) && |rates| == |flows|
    requires forall k :: 0 <= k < |invs| ==>
               invs[k].outs == Outgoing(flows, invs[k].name) && invs[k].ins == Incoming(flows, invs[k].name)
    ensures AllResolve(invs, Results(flows, rates))
    ensures DeltaTotal(invs, Results(flows, rates))
              == TotalFlowAt(InvNames(invs), flows, rates, true) - TotalFlowAt(InvNames(invs), flows, rates, false)
    decreases |invs|
  {
    var res := Results(flows, rates);
    forall k | 0 <= k < |invs| ensures Resolves(invs[k], res) {
      LinkedSum(flows, rates, invs[k].name, true);
      LinkedSum(flows, rates, invs[k].name, false);
    }
    if invs != [] {
      var n := |invs| - 1;
      assert InvNames(invs[..n]) == InvNames(invs)[..n];
      DeltaTotalLinks(invs[..n], flows, rates);
      LinkedSum(flows, rates, invs[n].name, true);
      LinkedSum(flows, rates, invs[n].name, false);
    }
  }

  /** One step of a compiled registry changes the total over all inventories
      by exactly the external net flow times the step; flows between two
      inventories cancel. */
  lemma {:induction false} StepConservation(invs: seq<Inventory>, flows: seq<Flow>, vars: seq<Variable>, t: real, step: real, row: Row)
    requires Compiled(invs, flows, vars) && Shaped(row, invs, flows, vars)
    requires NextRow(invs, flows, vars, t, step, row).Returned?
    ensures var next := NextRow(invs, flows, vars, t, step, row).value;
            Total(next.inv) == Total(row.inv) + Moved(ExternalNet(flows, next.flows), step)
  {
    NextRowParts(invs, flows, vars, t, step, row);
    var next := NextRow(invs, flows, vars, t, step, row).value;
    EulerConserves(invs, flows, vars, row.inv, next.flows, step);
    assert next.inv == Euler(invs, row.inv, Results(flows, next.flows), step);
  }

  /** The Euler update by any flow rates of a compiled registry moves the
      total by the external net flow times the step. */
  lemma {:induction false} EulerConserves(invs: seq<Inventory>, flows: seq<Flow>, vars: seq<Variable>, levels: seq<real>, rates: seq<real>, step: real)
    requires Compiled(invs, flows, vars) && |levels| == |invs| && |rates| == |flows|
    ensures AllResolve(invs, Results(flows, rates))
    ensures Total(Euler(invs, levels, Results(flows, rates), step)) == Total(levels) + Moved(ExternalNet(flows, rates), step)
  {
    NetOfLinked(invs, flows, vars, rates);
    TotalEuler(invs, levels, Results(flows, rates), step);
  }

  lemma {:induction false} NetOfLinked(invs: seq<Inventory>, flows: seq<Flow>, vars: seq<Variable>, rates: seq<real>)
    requires Compiled(invs, flows, vars) && |rates| == |flows|
    ensures AllResolve(invs, Results(flows, rates))
    ensures DeltaTotal(invs, Results(flows, rates)) == ExternalNet(flows, rates)
  {
    DeltaTotalLinks(invs, flows, rates);
    SwapSums(InvNames(invs), flows, rates, true);
    SwapSums(InvNames(invs), flows, rates, false);
    EndSumsNet(InvNames(invs), flows, rates);
  }

  /** Every flow runs between two inventories. */
  predicate Closed(flows: seq<Flow>) {
    forall j :: 0 <= j < |flows| ==> flows[j].source.Some? && flows[j].sink.Some?
  }

  lemma {:induction false} ClosedNoExternal(flows: seq<Flow>, rates: seq<real>)
    requires |rates| == |flows| && Closed(flows)
    ensures ExternalNet(flows, rates) == 0.0
    decreases |flows|
  {
    if flows != [] {
      var n := |flows| - 1;
      assert Closed(flows[..n]) by {
        forall j | 0 <= j < n ensures flows[..n][j] == flows[j] { }
      }
      ClosedNoExternal(flows[..n], rates[..n]);
    }
  }

  /** Every step of the run keeps the total. */
  ghost predicate RunKeepsTotal(invs: seq<Inventory>, flows: seq<Flow>, vars: seq<Variable>, start: real, step: real) {
    forall T: nat :: 0 < T && RowAt(invs, flows, vars, start, step, T).Returned? ==>
      && RowAt(invs, flows, vars, start, step, T - 1).Returned?
      && Total(RowAt(invs, flows, vars, start, step, T).value.inv) == Total(RowAt(invs, flows, vars, start, step, T - 1).value.inv)
  }

  lemma {:induction false} KeptTotal(invs: seq<Inventory>, flows: seq<Flow>, vars: seq<Variable>, start: real, step: real, T: nat)
    requires RunKeepsTotal(invs, flows, vars, start, step)
    requires RowAt(invs, flows, vars, start, step, T).Returned?
    ensures Total(RowAt(invs, flows, vars, start, step, T).value.inv) == Total(InitialRow(invs, flows, vars).inv)
    decreases T
  {
    if T > 0 {
      KeptTotal(invs, flows, vars, start, step, T - 1);
    }
  }

  /** In a closed compiled registry every row the run reaches has the total
      of the initial values. */
  lemma {:induction false} ClosedRunConserves(invs: seq<Inventory>, flows: seq<Flow>, vars: seq<Variable>,
                                              start: real, step: real, T: nat)
    requires Compiled(invs, flows, vars) && Closed(flows)
    requires RowAt(invs, flows, vars, start, step, T).Returned?
    ensures Total(RowAt(invs, flows, vars, start, step, T).value.inv) == Total(InitialRow(invs, flows, vars).inv)
  {
    forall T': nat | 0 < T' && RowAt(invs, flows, vars, start, step, T').Returned?
      ensures RowAt(invs, flows, vars, start, step, T' - 1).Returned?
      ensures Total(RowAt(invs, flows, vars, start, step, T').value.inv) == Total(RowAt(invs, flows, vars, start, step, T' - 1).value.inv)
    {
      RowAtConserves(invs, flows, vars, start, step, T');
    }
    KeptTotal(invs, flows, vars, start, step, T);
  }

  lemma {:induction false} RowAtConserves(invs: seq<Inventory>, flows: seq<Flow>, vars: seq<Variable>, start: real, step: real, T: nat)
    requires Compiled(invs, flows, vars) && Closed(flows)
    requires T > 0 && RowAt(invs, flows, vars, start, step, T).Returned?
    ensures RowAt(invs, flows, vars, start, step, T - 1).Returned?
    ensures Total(RowAt(invs, flows, vars, start, step, T).value.inv) == Total(RowAt(invs, flows, vars, start, step, T - 1).value.inv)
  {
    RowAtStep(invs, flows, vars, start, step, T);
    var prev := RowAt(invs, flows, vars, start, step, T - 1).value;
    var t := TimeAt(start, step, T - 1);
    StepConservation(invs, flows, vars, t, step, prev);
    ClosedNoExternal(flows, NextRow(invs, flows, vars, t, step, prev).value.flows);
  }
}
