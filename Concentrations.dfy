/** The recomputation of every regular sample's concentrations
    (Experiment.py, `update_all_concentrations` and
    `_calculate_trial_concentration`), on values: the registry is seen
    through three maps from registry names, to the "is a regular sample"
    flag, to the composite and to the concentrations. */
module Concentrations {
  import opened Outcomes
  import opened Sums
  import opened Sample
  import opened Keys
  import Graph

  // ---------------------------------------------------------------------
  // One sample: the volume-weighted average of its sources

  /** What `_calculate_trial_concentration` makes of a composite: the
      amounts of the sources present in `concs`, divided by the sum of
      all the volumes; no amounts give no concentrations, and amounts over
      a zero total raise `ZeroDivisionError`.  The result has one entry
      per substance that some registered source carries. */
  ghost function Blend(composite: map<string, real>, concs: map<string, map<string, real>>)
    : (r: Result<map<string, real>>)
    ensures r.Err? ==> r == Err(ZeroDivisionError) && SumValues(composite) == 0.0
    ensures r.Ok? ==> r.value.Keys == SubstancesIn(composite, concs)
  {
    var amounts := Amounts(composite, concs);
    if amounts == map[] then Ok(map[])
    else if SumValues(composite) == 0.0 then Err(ZeroDivisionError)
    else Ok(Scaled(amounts, SumValues(composite)))
  }

  /** The computation of `_calculate_trial_concentration`: the total of
      the composite, the amounts per substance, then the quotients. */
  method BlendOf(composite: map<string, real>, concs: map<string, map<string, real>>)
    returns (r: Result<map<string, real>>)
    ensures r == Blend(composite, concs)
  {
    var total := SumOf(composite);
    var amounts := SourceAmounts(composite, concs);
    if amounts == map[] {
      return Ok(map[]);
    }
    if total == 0.0 {
      return Err(ZeroDivisionError);
    }
    r := Ok(Scaled(amounts, total));
  }

  /** The amounts read the concentrations of the composite's own sources
      only. */
  lemma AmountsLocal(composite: map<string, real>, concs: map<string, map<string, real>>,
                     x: string, c: map<string, real>)
    requires x !in composite
    ensures Amounts(composite, concs[x := c]) == Amounts(composite, concs)
  {
    var concs' := concs[x := c];
    assert SubstancesIn(composite, concs') == SubstancesIn(composite, concs) by {
      forall s ensures s in SubstancesIn(composite, concs') <==> s in SubstancesIn(composite, concs) {
        if s in SubstancesIn(composite, concs') {
          var m :| m in composite && m in concs' && s in concs'[m];
          assert m in concs && s in concs[m];
        }
        if s in SubstancesIn(composite, concs) {
          var m :| m in composite && m in concs && s in concs[m];
          assert m in concs' && s in concs'[m];
        }
      }
    }
    forall s | s in SubstancesIn(composite, concs)
      ensures Contribution(composite, concs', s) == Contribution(composite, concs, s)
    {
      var a := Contribution(composite, concs', s);
      var b := Contribution(composite, concs, s);
      assert a.Keys == b.Keys by {
        forall m ensures m in a <==> m in b {
          if m in composite {
            assert m != x;
          }
        }
      }
      forall m | m in a ensures a[m] == b[m] {
        assert m != x;
      }
      SameMaps(a, b);
    }
  }

  /** So does the average: changing a sample that is not a source leaves
      it alone. */
  lemma BlendLocal(composite: map<string, real>, concs: map<string, map<string, real>>,
                   x: string, c: map<string, real>)
    requires x !in composite
    ensures Blend(composite, concs[x := c]) == Blend(composite, concs)
  {
    AmountsLocal(composite, concs, x, c);
  }

  /** The amounts of a single registered source are its concentrations
      times the volume. */
  lemma SingleAmounts(src: string, v: real, concs: map<string, map<string, real>>)
    requires src in concs
    ensures Amounts(map[src := v], concs) == AddScaledPart(map[], concs[src], v, concs[src].Keys)
  {
    var empty: map<string, real> := map[];
    AmountsEmpty(concs);
    AmountsStep(empty, concs, src, v);
    assert empty[src := v] == map[src := v];
  }

  /** Dividing amounts made by a volume `v` by that volume gives back
      the concentrations. */
  lemma ScaledBack(amounts: map<string, real>, c: map<string, real>, v: real)
    requires v != 0.0 && amounts.Keys == c.Keys
    requires forall s :: s in amounts ==> amounts[s] == c[s] * v
    ensures Scaled(amounts, v) == c
  {
    var scaled := Scaled(amounts, v);
    forall s | s in scaled ensures scaled[s] == c[s] {
      var x := c[s];
      assert amounts[s] == x * v;
      assert (x * v) / v == x;
    }
    SameMaps(scaled, c);
  }

  /** The total volume of a single source. */
  lemma SingleTotal(src: string, v: real)
    ensures SumValues(map[src := v]) == v
  {
    var empty: map<string, real> := map[];
    SumValuesInsert(empty, src, v);
    assert empty[src := v] == map[src := v];
  }

  /** A sample made of a single registered source, in any non-zero
      volume, gets exactly that source's concentrations. */
  lemma BlendSingle(src: string, v: real, concs: map<string, map<string, real>>)
    requires src in concs && v != 0.0
    ensures Blend(map[src := v], concs) == Ok(concs[src])
  {
    SingleTotal(src, v);
    var c := concs[src];
    var amounts := AddScaledPart(map[], c, v, c.Keys);
    SingleAmounts(src, v, concs);
    assert forall s :: s in amounts ==> amounts[s] == c[s] * v;
    ScaledBack(amounts, c, v);
  }

  // ---------------------------------------------------------------------
  // The regular samples, in registry order

  /** The names in `order` flagged regular (neither stock nor solvent), in
      order. */
  function Regulars(order: seq<string>, regular: map<string, bool>): (names: seq<string>)
    requires forall n :: n in order ==> n in regular
    ensures forall n :: n in names ==> n in order
    decreases |order|
  {
    if order == [] then []
    else
      var last := |order| - 1;
      assert forall n :: n in order[..last] ==> n in order;
      Regulars(order[..last], regular) + (if regular[order[last]] then [order[last]] else [])
  }

  /** The regular samples are exactly the flagged names of `order`, each
      once when `order` has no repetition. */
  lemma {:induction false} RegularsMeaning(order: seq<string>, regular: map<string, bool>)
    requires forall n :: n in order ==> n in regular
    ensures forall n :: n in Regulars(order, regular) <==> n in order && regular[n]
    ensures NoDuplicates(order) ==> NoDuplicates(Regulars(order, regular))
    decreases |order|
  {
    if order != [] {
      var last := |order| - 1;
      var init := order[..last];
      assert order == init + [order[last]];
      RegularsMeaning(init, regular);
      var rest := Regulars(init, regular);
      if NoDuplicates(order) {
        assert NoDuplicates(init) by {
          forall p, q | 0 <= p < q < |init| ensures init[p] != init[q] {
            assert init[p] == order[p] && init[q] == order[q];
          }
        }
        assert order[last] !in init by {
          forall p | 0 <= p < |init| ensures init[p] != order[last] {
            assert init[p] == order[p];
          }
        }
        var r := Regulars(order, regular);
        forall p, q | 0 <= p < q < |r| ensures r[p] != r[q] {
          if q == |rest| {
            assert r[p] == rest[p] && rest[p] in init;
          } else {
            assert r[p] == rest[p] && r[q] == rest[q];
          }
        }
      }
    }
  }

  lemma RegularsNext(order: seq<string>, k: int, regular: map<string, bool>)
    requires 0 <= k < |order| && forall n :: n in order ==> n in regular
    ensures forall n :: n in order[..k + 1] ==> n in regular
    ensures Regulars(order[..k + 1], regular) ==
      Regulars(order[..k], regular) + (if regular[order[k]] then [order[k]] else [])
  {
    assert order[..k + 1][..k] == order[..k];
  }

  /** The first loop of `update_all_concentrations`: the regular samples
      of the registry, in order. */
  method CollectRegular(order: seq<string>, regular: map<string, bool>) returns (names: seq<string>)
    requires forall n :: n in order ==> n in regular
    ensures names == Regulars(order, regular)
  {
    names := [];
    var k := 0;
    assert order[..0] == [];
    while k < |order|
      invariant 0 <= k <= |order|
      invariant names == Regulars(order[..k], regular)
    {
      RegularsNext(order, k, regular);
      if regular[order[k]] {
        names := names + [order[k]];
      }
      k := k + 1;
    }
    assert order[..k] == order;
  }

  // ---------------------------------------------------------------------
  // The dependency graph

  /** Sample `names[j]` precedes sample `names[i]` when it is a source in
      the composite of `names[i]`. */
  function PredsOf(names: seq<string>, comps: map<string, map<string, real>>): (preds: seq<set<int>>)
    requires forall n :: n in names ==> n in comps
    ensures |preds| == |names| && Graph.WellFormed(preds)
    ensures forall i, j {:trigger j in preds[i]} :: 0 <= i < |names| && 0 <= j < |names| ==> (j in preds[i] <==> names[j] in comps[names[i]])
  {
    seq(|names|, i requires 0 <= i < |names| => set j | 0 <= j < |names| && names[j] in comps[names[i]])
  }

  /** The position of `c` in `names`, or -1: `comp_trial in trials`. */
  function Position(names: seq<string>, c: string): (p: int)
    ensures -1 <= p < |names|
    ensures p >= 0 ==> names[p] == c
    ensures p < 0 ==> c !in names
    decreases |names|
  {
    if names == [] then -1
    else if names[0] == c then 0
    else
      var q := Position(names[1..], c);
      if q < 0 then -1 else q + 1
  }

  /** The nodes below `k` that `j` precedes, in increasing order: the
      adjacency list of `j` after `k` rounds of the graph loop. */
  function Consumers(preds: seq<set<int>>, j: int, k: int): seq<int>
    requires 0 <= k <= |preds|
    decreases k
  {
    if k == 0 then [] else Consumers(preds, j, k - 1) + (if j in preds[k - 1] then [k - 1] else [])
  }

  /** The list holds exactly the consumers below `k`, in increasing
      order. */
  lemma {:induction false} ConsumersMeaning(preds: seq<set<int>>, j: int, k: int)
    requires 0 <= k <= |preds|
    ensures forall x :: x in Consumers(preds, j, k) <==> 0 <= x < k && j in preds[x]
    ensures forall p, q :: 0 <= p < q < |Consumers(preds, j, k)| ==>
      Consumers(preds, j, k)[p] < Consumers(preds, j, k)[q]
    decreases k
  {
    if k > 0 {
      ConsumersMeaning(preds, j, k - 1);
      var prev := Consumers(preds, j, k - 1);
      var cur := Consumers(preds, j, k);
      forall p, q | 0 <= p < q < |cur| ensures cur[p] < cur[q] {
        if q == |prev| {
          assert cur[p] == prev[p] && prev[p] in prev;
        } else {
          assert cur[p] == prev[p] && cur[q] == prev[q];
        }
      }
    }
  }

  /** Full consumer lists are adjacency lists of the graph. */
  lemma ConsumersAdjacency(preds: seq<set<int>>, adj: seq<seq<int>>)
    requires Graph.WellFormed(preds) && |adj| == |preds|
    requires forall j :: 0 <= j < |adj| ==> adj[j] == Consumers(preds, j, |preds|)
    ensures Graph.AdjacencyOf(preds, adj)
  {
    forall j | 0 <= j < |adj|
      ensures Graph.Distinct(adj[j]) && Graph.Below(adj[j], |preds|)
      ensures forall i :: 0 <= i < |preds| ==> (i in adj[j] <==> j in preds[i])
    {
      ConsumersMeaning(preds, j, |preds|);
      forall p | 0 <= p < |adj[j]| ensures 0 <= adj[j][p] < |preds| {
        assert adj[j][p] in adj[j];
      }
    }
  }

  /** The inner loop of the graph construction for sample `names[i]`: for
      each of its sources that is a regular sample, `names[i]` is added to
      the source's adjacency list and its own in-degree is counted. */
  method LinkSources(names: seq<string>, comps: map<string, map<string, real>>, i: int, adj0: seq<seq<int>>)
    returns (adj: seq<seq<int>>, degree: int)
    requires NoDuplicates(names) && (forall n :: n in names ==> n in comps)
    requires 0 <= i < |names| && |adj0| == |names|
    ensures |adj| == |names|
    ensures forall j :: 0 <= j < |names| ==>
      adj[j] == adj0[j] + (if j in PredsOf(names, comps)[i] then [i] else [])
    ensures degree == |PredsOf(names, comps)[i]|
  {
    ghost var preds := PredsOf(names, comps);
    var keys := comps[names[i]].Keys;
    var rest := keys;
    ghost var seen: set<int> := {};
    adj, degree := adj0, 0;
    while rest != {}
      invariant rest <= keys && |adj| == |names|
      invariant forall j :: j in seen <==> 0 <= j < |names| && names[j] in keys - rest
      invariant degree == |seen|
      invariant forall j :: 0 <= j < |names| ==> adj[j] == adj0[j] + (if j in seen then [i] else [])
      decreases rest
    {
      var c :| c in rest;
      var p := Position(names, c);
      if p >= 0 {
        assert p !in seen;
        forall j | 0 <= j < |names| && names[j] == c ensures j == p {
          assert names[j] == names[p];
        }
        adj := adj[p := adj[p] + [i]];
        seen := seen + {p};
        degree := degree + 1;
      }
      rest := rest - {c};
    }
    assert seen == preds[i];
  }

  /** The graph loop of `update_all_concentrations`: the adjacency lists
      and in-degrees of the dependency graph of `names`. */
  method BuildGraph(names: seq<string>, comps: map<string, map<string, real>>)
    returns (adj: seq<seq<int>>, indeg: seq<int>)
    requires NoDuplicates(names) && (forall n :: n in names ==> n in comps)
    ensures Graph.AdjacencyOf(PredsOf(names, comps), adj)
    ensures Graph.InDegreesOf(PredsOf(names, comps), indeg)
    ensures forall j :: 0 <= j < |adj| ==> adj[j] == Consumers(PredsOf(names, comps), j, |names|)
  {
    ghost var preds := PredsOf(names, comps);
    adj := seq(|names|, _ => []);
    indeg := seq(|names|, _ => 0);
    var i := 0;
    while i < |names|
      invariant 0 <= i <= |names| && |adj| == |names| && |indeg| == |names|
      invariant forall j :: 0 <= j < |names| ==> adj[j] == Consumers(preds, j, i)
      invariant forall x :: 0 <= x < |names| ==> indeg[x] == if x < i then |preds[x]| else 0
    {
      var degree;
      adj, degree := LinkSources(names, comps, i, adj);
      indeg := indeg[i := degree];
      i := i + 1;
    }
    ConsumersAdjacency(preds, adj);
  }

  /** The check after the sort: some sample left out of the order still
      waits for a source, which raises `ValueError`. */
  method FindWaiting(sorted: seq<int>, indeg: seq<int>) returns (r: Outcome)
    ensures r == Pass || r == Fail(ValueError)
    ensures r == Fail(ValueError) <==> exists i :: 0 <= i < |indeg| && i !in sorted && indeg[i] > 0
  {
    var i := 0;
    while i < |indeg|
      invariant 0 <= i <= |indeg|
      invariant forall x :: 0 <= x < i ==> x in sorted || indeg[x] <= 0
    {
      if i !in sorted && indeg[i] > 0 {
        return Fail(ValueError);
      }
      i := i + 1;
    }
    r := Pass;
  }

  // ---------------------------------------------------------------------
  // The averages, in dependency order

  /** A sample placed in a topological order is not a source of itself nor
      of any sample placed before it. */
  lemma NotSourceOfEarlier(names: seq<string>, comps: map<string, map<string, real>>, sorted: seq<int>, k: int)
    requires NoDuplicates(names) && (forall n :: n in names ==> n in comps)
    requires Graph.Distinct(sorted) && Graph.Topological(PredsOf(names, comps), sorted)
    requires 0 <= k < |sorted|
    ensures forall p :: 0 <= p <= k ==> names[sorted[k]] !in comps[names[sorted[p]]]
  {
    var preds := PredsOf(names, comps);
    forall p | 0 <= p <= k ensures names[sorted[k]] !in comps[names[sorted[p]]] {
      assert 0 <= sorted[p] < |names| && 0 <= sorted[k] < |names|;
      assert sorted[k] in preds[sorted[p]] <==> names[sorted[k]] in comps[names[sorted[p]]];
    }
  }

  /** The dependency sort of `update_all_concentrations`: the graph of
      the regular samples, Kahn's algorithm, and the `ValueError` raised
      when a sample is left waiting for a source, which happens exactly
      when the samples depend on each other in a cycle. */
  method SortSamples(names: seq<string>, comps: map<string, map<string, real>>) returns (r: Outcome, sorted: seq<int>)
    requires NoDuplicates(names) && (forall n :: n in names ==> n in comps)
    ensures Graph.Distinct(sorted) && Graph.Topological(PredsOf(names, comps), sorted)
    ensures r == Pass || r == Fail(ValueError)
    ensures r == Fail(ValueError) <==> !Graph.Acyclic(PredsOf(names, comps))
    ensures r == Pass ==> forall i :: 0 <= i < |names| ==> i in sorted
  {
    ghost var preds := PredsOf(names, comps);
    var adj, indeg0 := BuildGraph(names, comps);
    var indeg;
    sorted, indeg := Graph.Kahn(preds, adj, indeg0);
    r := FindWaiting(sorted, indeg);
    CycleReported(preds, sorted, indeg, r);
  }

  /** After Kahn's algorithm a sample is left waiting exactly when the
      graph has a cycle; otherwise every sample is sorted. */
  lemma CycleReported(preds: seq<set<int>>, sorted: seq<int>, indeg: seq<int>, r: Outcome)
    requires |indeg| == |preds|
    requires forall i :: 0 <= i < |preds| && i !in sorted ==> indeg[i] > 0
    requires Graph.Nodes(|preds|) <= Graph.Elems(sorted) <==> Graph.Acyclic(preds)
    requires r == Fail(ValueError) <==> exists i :: 0 <= i < |indeg| && i !in sorted && indeg[i] > 0
    ensures r == Fail(ValueError) <==> !Graph.Acyclic(preds)
    ensures Graph.Acyclic(preds) ==> forall i :: 0 <= i < |preds| ==> i in sorted
  {
    if !(Graph.Nodes(|preds|) <= Graph.Elems(sorted)) {
      var i :| i in Graph.Nodes(|preds|) && i !in Graph.Elems(sorted);
      assert i !in sorted && indeg[i] > 0;
    } else {
      forall i | 0 <= i < |preds| ensures i in sorted {
        assert i in Graph.Nodes(|preds|);
      }
    }
  }

  /** Everything `update_all_concentrations` does before its last loop:
      the regular samples of the registry, in order, and, unless there
      are none, their dependency sort. */
  method Schedule(order: seq<string>, regular: map<string, bool>, comps: map<string, map<string, real>>)
    returns (r: Outcome, names: seq<string>, sorted: seq<int>)
    requires NoDuplicates(order) && forall n :: n in order ==> n in regular && n in comps
    ensures names == Regulars(order, regular)
    ensures NoDuplicates(names) && forall n :: n in names ==> n in comps && n in order && regular[n]
    ensures Graph.Distinct(sorted) && Graph.Topological(PredsOf(names, comps), sorted)
    ensures r == Pass || r == Fail(ValueError)
    ensures r == Fail(ValueError) <==> !Graph.Acyclic(PredsOf(names, comps))
    ensures r == Pass ==> forall i :: 0 <= i < |names| ==> i in sorted
  {
    names := CollectRegular(order, regular);
    RegularsMeaning(order, regular);
    if names == [] {
      Graph.OrderedIsAcyclic(PredsOf(names, comps), []);
      return Pass, names, [];
    }
    r, sorted := SortSamples(names, comps);
  }

  /** Sample `n` holds the average of its sources. */
  ghost predicate Settled(comps: map<string, map<string, real>>, concs: map<string, map<string, real>>, n: string)
  {
    n in comps && n in concs && Blend(comps[n], concs) == Ok(concs[n])
  }

  /** What holds after the first `|done|` samples of `sorted` have been
      given their averages, starting from `concs`: `done` lists them, they
      are all settled, and nothing else has changed. */
  ghost predicate Mixed(names: seq<string>, comps: map<string, map<string, real>>, sorted: seq<int>,
                        concs: map<string, map<string, real>>, next: map<string, map<string, real>>, done: seq<string>)
  {
    |done| <= |sorted| && Graph.Below(sorted, |names|) &&
    (forall p :: 0 <= p < |done| ==> done[p] == names[sorted[p]]) &&
    NoDuplicates(done) && (forall n :: n in done ==> n in names) &&
    next.Keys == concs.Keys &&
    (forall n :: n in concs && n !in done ==> next[n] == concs[n]) &&
    (forall n :: n in done ==> Settled(comps, next, n))
  }

  lemma MixStart(names: seq<string>, comps: map<string, map<string, real>>, sorted: seq<int>,
                 concs: map<string, map<string, real>>)
    requires Graph.Below(sorted, |names|)
    ensures Mixed(names, comps, sorted, concs, concs, [])
  {
  }

  /** The next sample of the order has not been updated yet. */
  lemma MixPending(names: seq<string>, comps: map<string, map<string, real>>, sorted: seq<int>,
                   concs: map<string, map<string, real>>, next: map<string, map<string, real>>, done: seq<string>)
    requires NoDuplicates(names) && Graph.Distinct(sorted)
    requires Mixed(names, comps, sorted, concs, next, done) && |done| < |sorted|
    ensures 0 <= sorted[|done|] < |names| && names[sorted[|done|]] in names && names[sorted[|done|]] !in done
  {
    var k := |done|;
    forall p | 0 <= p < k ensures done[p] != names[sorted[k]] {
      assert sorted[p] != sorted[k];
    }
  }

  /** Updating a sample that is a source of none of the settled ones,
      nor of itself, to its own average settles it and keeps the others
      settled. */
  lemma SettleOne(comps: map<string, map<string, real>>, next: map<string, map<string, real>>,
                  done: seq<string>, n: string, v: map<string, real>)
    requires forall m :: m in done ==> Settled(comps, next, m) && n !in comps[m]
    requires n in comps && n in next && n !in comps[n] && Blend(comps[n], next) == Ok(v)
    ensures forall m :: m in done + [n] ==> Settled(comps, next[n := v], m)
  {
    forall m | m in done + [n] ensures Settled(comps, next[n := v], m) {
      BlendLocal(comps[m], next, n, v);
    }
  }

  /** Giving the next sample of a topological order its average keeps
      every average computed so far. */
  lemma MixStep(names: seq<string>, comps: map<string, map<string, real>>, sorted: seq<int>,
                concs: map<string, map<string, real>>, next: map<string, map<string, real>>, done: seq<string>,
                v: map<string, real>)
    requires NoDuplicates(names) && (forall n :: n in names ==> n in comps && n in concs)
    requires Graph.Distinct(sorted) && Graph.Topological(PredsOf(names, comps), sorted)
    requires Mixed(names, comps, sorted, concs, next, done) && |done| < |sorted|
    requires Blend(comps[names[sorted[|done|]]], next) == Ok(v)
    ensures Mixed(names, comps, sorted, concs, next[names[sorted[|done|]] := v], done + [names[sorted[|done|]]])
  {
    var k := |done|;
    var n := names[sorted[k]];
    MixPending(names, comps, sorted, concs, next, done);
    assert forall m :: m in done ==> Settled(comps, next, m) && n !in comps[m] by {
      NotSourceOfEarlier(names, comps, sorted, k);
      forall m | m in done ensures n !in comps[m] {
        var p :| 0 <= p < k && done[p] == m;
        assert n !in comps[names[sorted[p]]];
      }
    }
    assert n !in comps[n] by {
      NotSourceOfEarlier(names, comps, sorted, k);
    }
    SettleOne(comps, next, done, n, v);
    NoDuplicatesSnoc(done, n);
    MixedSnoc(names, comps, sorted, concs, next, done, v);
  }

  lemma MixedSnoc(names: seq<string>, comps: map<string, map<string, real>>, sorted: seq<int>,
                  concs: map<string, map<string, real>>, next: map<string, map<string, real>>, done: seq<string>,
                  v: map<string, real>)
    requires Mixed(names, comps, sorted, concs, next, done) && |done| < |sorted|
    requires 0 <= sorted[|done|] < |names| && names[sorted[|done|]] in names && names[sorted[|done|]] in concs
    requires NoDuplicates(done + [names[sorted[|done|]]])
    requires forall m :: m in done + [names[sorted[|done|]]] ==> Settled(comps, next[names[sorted[|done|]] := v], m)
    ensures Mixed(names, comps, sorted, concs, next[names[sorted[|done|]] := v], done + [names[sorted[|done|]]])
  {
    var n := names[sorted[|done|]];
    var next', done' := next[n := v], done + [n];
    assert forall p :: 0 <= p < |done'| ==> done'[p] == names[sorted[p]];
  }

  /** An order run to its end that covers every sample leaves all of them
      settled. */
  lemma MixDone(names: seq<string>, comps: map<string, map<string, real>>, sorted: seq<int>,
                concs: map<string, map<string, real>>, next: map<string, map<string, real>>, done: seq<string>)
    requires Mixed(names, comps, sorted, concs, next, done) && |done| == |sorted|
    requires forall i :: 0 <= i < |names| ==> i in sorted
    ensures forall n :: n in names ==> Settled(comps, next, n)
  {
    forall n | n in names ensures n in done {
      var i :| 0 <= i < |names| && names[i] == n;
      assert i in sorted;
      var p :| 0 <= p < |sorted| && sorted[p] == i;
      assert done[p] == n;
    }
  }

  // ---------------------------------------------------------------------
  // The outcome of `update_all_concentrations`

  /** What a run of `update_all_concentrations` over the registry `order`
      leaves, from concentrations `before` to `after`, with outcome `r`:
      a cycle among the regular samples raises `ValueError` and changes
      nothing; otherwise every sample is unchanged or is a regular sample
      holding the average of its sources; a run that passes settles all
      regular samples, and a `ZeroDivisionError` leaves a regular sample
      whose average cannot be taken. */
  ghost predicate Recomputed(order: seq<string>, regular: map<string, bool>, comps: map<string, map<string, real>>,
                             before: map<string, map<string, real>>, after: map<string, map<string, real>>, r: Outcome)
  {
    (forall n :: n in order ==> n in regular && n in comps) &&
    (r == Pass || r == Fail(ValueError) || r == Fail(ZeroDivisionError)) &&
    (r == Fail(ValueError) <==> !Graph.Acyclic(PredsOf(Regulars(order, regular), comps))) &&
    (r == Fail(ValueError) ==> after == before) &&
    after.Keys == before.Keys &&
    (forall n :: n in before ==> after[n] == before[n] || (n in regular && regular[n] && Settled(comps, after, n))) &&
    (r == Pass ==> forall n :: n in order && regular[n] ==> Settled(comps, after, n)) &&
    (r == Fail(ZeroDivisionError) ==> exists n :: n in order && regular[n] && n in comps && Blend(comps[n], after).Err?)
  }

  /** A cycle stops the run before anything changes. */
  lemma RecomputedCycle(order: seq<string>, regular: map<string, bool>, comps: map<string, map<string, real>>,
                        concs: map<string, map<string, real>>)
    requires forall n :: n in order ==> n in regular && n in comps
    requires !Graph.Acyclic(PredsOf(Regulars(order, regular), comps))
    ensures Recomputed(order, regular, comps, concs, concs, Fail(ValueError))
  {
  }

  /** A run of the last loop over a complete topological order of the
      regular samples gives the outcome described. */
  lemma RecomputedMixed(order: seq<string>, regular: map<string, bool>, comps: map<string, map<string, real>>,
                        names: seq<string>, sorted: seq<int>, before: map<string, map<string, real>>,
                        after: map<string, map<string, real>>, done: seq<string>, r: Outcome)
    requires forall n :: n in order ==> n in regular && n in comps
    requires names == Regulars(order, regular)
    requires Graph.Acyclic(PredsOf(names, comps))
    requires forall i :: 0 <= i < |names| ==> i in sorted
    requires Mixed(names, comps, sorted, before, after, done)
    requires r == Pass || r == Fail(ZeroDivisionError)
    requires r == Pass <==> |done| == |sorted|
    requires r.Fail? ==> (|done| < |sorted| && 0 <= sorted[|done|] < |names| &&
                          Blend(comps[names[sorted[|done|]]], after).Err?)
    ensures Recomputed(order, regular, comps, before, after, r)
  {
    RegularsMeaning(order, regular);
    if r == Pass {
      MixDone(names, comps, sorted, before, after, done);
    } else {
      var n := names[sorted[|done|]];
      assert n in names;
    }
  }
}
