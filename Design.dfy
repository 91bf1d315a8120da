/** The mixture-design search: which stock samples, and how much of each,
    give a target concentration of every substance (Experiment.py:369-517).
    The search itself is pure; the experiment's part (building the
    substance table, adding the solvent, registering the mix) lives with
    the experiment. */
module Design {
  import opened Outcomes
  import opened Sums

  /** What stays fixed during one search: the substance-to-samples table,
      every sample's concentrations, the target concentrations, the total
      volume, the volume window, the retry budget, and `round(x, 2)`,
      taken as given. */
  datatype Setting = Setting(
    table: map<string, seq<string>>,
    concs: map<string, map<string, real>>,
    target: map<string, real>,
    total: real,
    minVolume: real,
    maxVolume: real,
    maxRetries: int,
    round2: real -> real)

  /** `substance_trial_map.get(s, [])`. */
  function Candidates(table: map<string, seq<string>>, s: string): seq<string>
  {
    if s in table then table[s] else []
  }

  /** `trial.substance_conc.get(s, 0)`. */
  function ConcOf(conc: map<string, real>, s: string): real
  {
    if s in conc then conc[s] else 0.0
  }

  /** `used[t] += v` on a `defaultdict(float)`. */
  function Add(used: map<string, real>, t: string, v: real): map<string, real>
  {
    used[t := (if t in used then used[t] else 0.0) + v]
  }

  /** The volume of sample `t` that gives substance `s` its target
      concentration, rounded. */
  function Required(st: Setting, s: string, t: string): real
    requires s in st.target && t in st.concs && ConcOf(st.concs[t], s) != 0.0
  {
    st.round2(st.target[s] * st.total / ConcOf(st.concs[t], s))
  }

  /** The retries left; zero once the counter reaches the maximum. */
  function Budget(retry: int, maxRetries: int): nat
  {
    if retry < maxRetries then maxRetries - retry else 0
  }

  /** The first position from `i` on whose substance has more than one
      candidate. */
  function Movable(table: map<string, seq<string>>, subs: seq<string>, i: nat): (r: Option<nat>)
    ensures r.Some? ==> i <= r.value < |subs| && |Candidates(table, subs[r.value])| > 1
    ensures r.Some? ==> forall j :: i <= j < r.value ==> |Candidates(table, subs[j])| <= 1
    ensures r.None? ==> forall j :: i <= j < |subs| ==> |Candidates(table, subs[j])| <= 1
    decreases |subs| - i
  {
    if i >= |subs| then None
    else if |Candidates(table, subs[i])| > 1 then Some(i)
    else Movable(table, subs, i + 1)
  }

  /** The substances with the one at `i` moved to the front. */
  function MoveToFront(subs: seq<string>, i: nat): (r: seq<string>)
    requires i < |subs|
    ensures |r| == |subs| && r[0] == subs[i] && multiset(r) == multiset(subs)
  {
    assert subs == subs[..i] + [subs[i]] + subs[i + 1..];
    [subs[i]] + subs[..i] + subs[i + 1..]
  }

  /** `_allocate_volumes_recursive`: `Ok(None)` for no plan, `Ok(Some(used))`
      for the first plan found, `Err` for an exception on the way.  The
      first substance tries its candidates in order; a candidate whose
      rounded volume lies in the window is taken and the rest searched
      for; when no candidate leads anywhere and retries are left, the
      first later substance with several candidates is moved to the front
      and the search restarts from the same usage, once.  The only
      exceptions are a missing key and a division by zero, and a plan
      found keeps every sample already in use. */
  function Allocate(st: Setting, subs: seq<string>, used: map<string, real>, retry: int)
    : (r: Result<Option<map<string, real>>>)
    ensures r.Err? ==> r.fault == KeyError || r.fault == ZeroDivisionError
    ensures r.Ok? && r.value.Some? ==> used.Keys <= r.value.value.Keys
    decreases Budget(retry, st.maxRetries), |subs|, 1, 0
  {
    if subs == [] then Ok(Some(used))
    else
      var found := TryFrom(st, subs, used, retry, 0);
      if found.Err? || found.value.Some? then found
      else if retry < st.maxRetries && |subs| > 1 then
        match Movable(st.table, subs, 1)
        case Some(i) => Allocate(st, MoveToFront(subs, i), used, retry + 1)
        case None => Ok(None)
      else Ok(None)
  }

  /** The candidate loop of `_allocate_volumes_recursive`, from the `k`-th
      candidate of the first substance on.  Looking the candidate up in
      the registry, the target up in the target map and dividing by the
      concentration can raise, with the same two exceptions as
      `Allocate`. */
  function TryFrom(st: Setting, subs: seq<string>, used: map<string, real>, retry: int, k: nat)
    : (r: Result<Option<map<string, real>>>)
    requires subs != []
    ensures r.Err? ==> r.fault == KeyError || r.fault == ZeroDivisionError
    ensures r.Ok? && r.value.Some? ==> used.Keys <= r.value.value.Keys
    decreases Budget(retry, st.maxRetries), |subs|, 0, |Candidates(st.table, subs[0])| - k
  {
    var s := subs[0];
    var cands := Candidates(st.table, s);
    if k >= |cands| then Ok(None)
    else
      var t := cands[k];
      if t !in st.concs || s !in st.target then Err(KeyError)
      else if ConcOf(st.concs[t], s) == 0.0 then Err(ZeroDivisionError)
      else
        var v := Required(st, s, t);
        if !(st.minVolume <= v <= st.maxVolume) then TryFrom(st, subs, used, retry, k + 1)
        else
          var r := Allocate(st, subs[1..], Add(used, t, v), retry);
          if r.Err? || r.value.Some? then r else TryFrom(st, subs, used, retry, k + 1)
  }

  // ---------------------------------------------------------------------
  // What a found plan is

  /** One accepted choice: sample `trial` supplies substance `sub` with
      `volume`. */
  datatype Pick = Pick(sub: string, trial: string, volume: real)

  /** A pick the search may make: the sample is a candidate for the
      substance, its volume is the required one and lies in the window. */
  predicate Allowed(st: Setting, p: Pick)
  {
    p.trial in Candidates(st.table, p.sub) && p.sub in st.target && p.trial in st.concs &&
    ConcOf(st.concs[p.trial], p.sub) != 0.0 &&
    p.volume == Required(st, p.sub, p.trial) &&
    st.minVolume <= p.volume <= st.maxVolume
  }

  function Subs(plan: seq<Pick>): (r: seq<string>)
    ensures |r| == |plan| && forall i :: 0 <= i < |plan| ==> r[i] == plan[i].sub
  {
    seq(|plan|, i requires 0 <= i < |plan| => plan[i].sub)
  }

  /** The usage after the picks, in order. */
  function Apply(used: map<string, real>, plan: seq<Pick>): map<string, real>
    decreases |plan|
  {
    if plan == [] then used else Apply(Add(used, plan[0].trial, plan[0].volume), plan[1..])
  }

  /** A plan for `subs` from `used`: one allowed pick per substance (in
      some order), and the usage it leads to. */
  predicate PlanFor(st: Setting, subs: seq<string>, used: map<string, real>, plan: seq<Pick>, res: map<string, real>)
  {
    (forall i :: 0 <= i < |plan| ==> Allowed(st, plan[i])) &&
    multiset(Subs(plan)) == multiset(subs) && res == Apply(used, plan)
  }

  /** Picking first and planning the rest is a plan. */
  lemma PlanCons(st: Setting, subs: seq<string>, used: map<string, real>, p: Pick, plan: seq<Pick>, res: map<string, real>)
    requires subs != [] && p.sub == subs[0] && Allowed(st, p)
    requires PlanFor(st, subs[1..], Add(used, p.trial, p.volume), plan, res)
    ensures PlanFor(st, subs, used, [p] + plan, res)
  {
    var whole := [p] + plan;
    ConsAllowed(st, p, plan);
    ConsSubs(subs, p, plan);
    assert whole[0] == p && whole[1..] == plan;
  }

  lemma ConsAllowed(st: Setting, p: Pick, plan: seq<Pick>)
    requires Allowed(st, p) && forall i :: 0 <= i < |plan| ==> Allowed(st, plan[i])
    ensures forall i :: 0 <= i < |[p] + plan| ==> Allowed(st, ([p] + plan)[i])
  {
    var whole := [p] + plan;
    forall i | 0 <= i < |whole|
      ensures Allowed(st, whole[i])
    {
      if i > 0 {
        assert whole[i] == plan[i - 1];
      }
    }
  }

  lemma ConsSubs(subs: seq<string>, p: Pick, plan: seq<Pick>)
    requires subs != [] && p.sub == subs[0] && multiset(Subs(plan)) == multiset(subs[1..])
    ensures multiset(Subs([p] + plan)) == multiset(subs)
  {
    assert Subs([p] + plan) == [p.sub] + Subs(plan);
    assert subs == [subs[0]] + subs[1..];
  }

  /** Every plan the search returns is a full assignment: one allowed
      pick, with its volume in the window, for each substance, added to
      the usage it started from. */
  lemma {:induction false} AllocateSound(st: Setting, subs: seq<string>, used: map<string, real>, retry: int)
    requires Allocate(st, subs, used, retry).Ok? && Allocate(st, subs, used, retry).value.Some?
    ensures exists plan :: PlanFor(st, subs, used, plan, Allocate(st, subs, used, retry).value.value)
    decreases Budget(retry, st.maxRetries), |subs|, 1, 0
  {
    var res := Allocate(st, subs, used, retry).value.value;
    if subs == [] {
      assert PlanFor(st, subs, used, [], res);
    } else {
      var found := TryFrom(st, subs, used, retry, 0);
      if found.Ok? && found.value.Some? {
        TrySound(st, subs, used, retry, 0);
      } else {
        var i := Movable(st.table, subs, 1).value;
        var moved := MoveToFront(subs, i);
        AllocateSound(st, moved, used, retry + 1);
        var plan :| PlanFor(st, moved, used, plan, res);
        assert PlanFor(st, subs, used, plan, res);
      }
    }
  }

  lemma {:induction false} TrySound(st: Setting, subs: seq<string>, used: map<string, real>, retry: int, k: nat)
    requires subs != []
    requires TryFrom(st, subs, used, retry, k).Ok? && TryFrom(st, subs, used, retry, k).value.Some?
    ensures exists plan :: PlanFor(st, subs, used, plan, TryFrom(st, subs, used, retry, k).value.value)
    decreases Budget(retry, st.maxRetries), |subs|, 0, |Candidates(st.table, subs[0])| - k
  {
    var res := TryFrom(st, subs, used, retry, k).value.value;
    var s, cands := subs[0], Candidates(st.table, subs[0]);
    var t := cands[k];
    var v := Required(st, s, t);
    if st.minVolume <= v <= st.maxVolume {
      var r := Allocate(st, subs[1..], Add(used, t, v), retry);
      if r.Ok? && r.value.Some? {
        AllocateSound(st, subs[1..], Add(used, t, v), retry);
        var plan :| PlanFor(st, subs[1..], Add(used, t, v), plan, res);
        PlanCons(st, subs, used, Pick(s, t, v), plan, res);
        return;
      }
    }
    TrySound(st, subs, used, retry, k + 1);
  }

  /** The volume a plan assigns to sample `t`, summed over its picks. */
  function VolumeFor(plan: seq<Pick>, t: string): real
    decreases |plan|
  {
    if plan == [] then 0.0
    else (if plan[0].trial == t then plan[0].volume else 0.0) + VolumeFor(plan[1..], t)
  }

  /** Usage accumulates per sample: after a plan, each sample's usage is
      its usage before plus the volumes of its picks, and no sample is
      touched that the plan does not pick. */
  lemma {:induction false} ApplyAdds(used: map<string, real>, plan: seq<Pick>, t: string)
    ensures var after := Apply(used, plan);
      (t in after <==> t in used || exists i :: 0 <= i < |plan| && plan[i].trial == t) &&
      (t in after ==> after[t] == (if t in used then used[t] else 0.0) + VolumeFor(plan, t))
    decreases |plan|
  {
    if plan != [] {
      var next := Add(used, plan[0].trial, plan[0].volume);
      ApplyAdds(next, plan[1..], t);
      if exists i :: 0 <= i < |plan[1..]| && plan[1..][i].trial == t {
        var i :| 0 <= i < |plan[1..]| && plan[1..][i].trial == t;
        assert plan[i + 1].trial == t;
      }
      if exists i :: 0 <= i < |plan| && plan[i].trial == t {
        var i :| 0 <= i < |plan| && plan[i].trial == t;
        if i > 0 {
          assert plan[1..][i - 1].trial == t;
        }
      }
    }
  }

  // ---------------------------------------------------------------------
  // When the search cannot raise

  /** Every substance searched for has a target, and every candidate is a
      known sample holding its substance at a positive concentration, as
      `gen_substance_trial_dict` guarantees. */
  predicate Sound(st: Setting, subs: seq<string>)
  {
    Targeted(st, subs) && SoundTable(st)
  }

  predicate Targeted(st: Setting, subs: seq<string>)
  {
    forall s :: s in subs ==> s in st.target
  }

  predicate SoundTable(st: Setting)
  {
    forall s, t :: s in st.table && t in st.table[s] ==> t in st.concs && ConcOf(st.concs[t], s) > 0.0
  }

  /** Reordering or dropping substances keeps them all targeted. */
  lemma TargetedWithin(st: Setting, subs: seq<string>, other: seq<string>)
    requires Targeted(st, subs) && multiset(other) <= multiset(subs)
    ensures Targeted(st, other)
  {
    forall s | s in other
      ensures s in st.target
    {
      assert s in multiset(other);
    }
  }

  /** Over a sound table the search never raises: no unknown sample, no
      missing target and no division by zero. */
  lemma {:induction false} AllocateSafe(st: Setting, subs: seq<string>, used: map<string, real>, retry: int)
    requires Sound(st, subs)
    ensures Allocate(st, subs, used, retry).Ok?
    decreases Budget(retry, st.maxRetries), |subs|, 2, 0
  {
    if subs != [] {
      TrySafe(st, subs, used, retry, 0);
      if retry < st.maxRetries && |subs| > 1 {
        RetrySafe(st, subs, used, retry);
      }
    }
  }

  /** The retry with a movable substance moved to the front. */
  lemma {:induction false} RetrySafe(st: Setting, subs: seq<string>, used: map<string, real>, retry: int)
    requires Sound(st, subs) && retry < st.maxRetries && |subs| > 1
    ensures var m := Movable(st.table, subs, 1);
      m.Some? ==> Allocate(st, MoveToFront(subs, m.value), used, retry + 1).Ok?
    decreases Budget(retry, st.maxRetries), |subs|, 1, 0
  {
    var m := Movable(st.table, subs, 1);
    if m.Some? {
      var moved := MoveToFront(subs, m.value);
      TargetedWithin(st, subs, moved);
      AllocateSafe(st, moved, used, retry + 1);
    }
  }

  lemma {:induction false} TrySafe(st: Setting, subs: seq<string>, used: map<string, real>, retry: int, k: nat)
    requires subs != [] && Sound(st, subs)
    ensures TryFrom(st, subs, used, retry, k).Ok?
    decreases Budget(retry, st.maxRetries), |subs|, 0, |Candidates(st.table, subs[0])| - k
  {
    var s, cands := subs[0], Candidates(st.table, subs[0]);
    if k < |cands| {
      var t := cands[k];
      assert t in st.concs && ConcOf(st.concs[t], s) > 0.0 && s in st.target by {
        assert s in st.table && t in st.table[s];
      }
      TrySafe(st, subs, used, retry, k + 1);
      var v := Required(st, s, t);
      if st.minVolume <= v <= st.maxVolume {
        assert subs == [s] + subs[1..];
        TargetedWithin(st, subs, subs[1..]);
        AllocateSafe(st, subs[1..], Add(used, t, v), retry);
      }
    }
  }

  // ---------------------------------------------------------------------
  // The order substances are searched in

  /** The number of candidates of a substance, the sort key. */
  function Count(table: map<string, seq<string>>, s: string): nat
  {
    |Candidates(table, s)|
  }

  /** Inserts `x` after every element whose key is not larger. */
  function InsertByCount(table: map<string, seq<string>>, x: string, sorted: seq<string>): (r: seq<string>)
    decreases |sorted|
  {
    if sorted == [] then [x]
    else if Count(table, x) < Count(table, sorted[0]) then [x] + sorted
    else [sorted[0]] + InsertByCount(table, x, sorted[1..])
  }

  /** Inserting adds one `x` and keeps everything else. */
  lemma {:induction false} InsertAdds(table: map<string, seq<string>>, x: string, sorted: seq<string>)
    ensures multiset(InsertByCount(table, x, sorted)) == multiset(sorted) + multiset{x}
    decreases |sorted|
  {
    if sorted != [] && Count(table, x) >= Count(table, sorted[0]) {
      InsertAdds(table, x, sorted[1..]);
      assert sorted == [sorted[0]] + sorted[1..];
    }
  }

  /** `sorted(subs, key=count)`: Python's stable sort, as an insertion sort
      taking the substances in their given order. */
  function SortByCount(table: map<string, seq<string>>, subs: seq<string>): seq<string>
    decreases |subs|
  {
    if subs == [] then []
    else InsertByCount(table, subs[|subs| - 1], SortByCount(table, subs[..|subs| - 1]))
  }

  /** Keys never decrease along `s`. */
  predicate ByCount(table: map<string, seq<string>>, s: seq<string>)
  {
    forall p, q :: 0 <= p < q < |s| ==> Count(table, s[p]) <= Count(table, s[q])
  }

  /** Inserting adds `x` and nothing else. */
  lemma {:induction false} InsertMembers(table: map<string, seq<string>>, x: string, sorted: seq<string>)
    ensures forall y :: y in InsertByCount(table, x, sorted) <==> y == x || y in sorted
    decreases |sorted|
  {
    if sorted != [] && Count(table, x) >= Count(table, sorted[0]) {
      InsertMembers(table, x, sorted[1..]);
      assert sorted == [sorted[0]] + sorted[1..];
    }
  }

  /** A head no larger than anything after it keeps the order. */
  lemma ConsByCount(table: map<string, seq<string>>, h: string, tail: seq<string>)
    requires ByCount(table, tail)
    requires forall y :: y in tail ==> Count(table, h) <= Count(table, y)
    ensures ByCount(table, [h] + tail)
  {
    var r := [h] + tail;
    forall p, q | 0 <= p < q < |r|
      ensures Count(table, r[p]) <= Count(table, r[q])
    {
      assert r[q] == tail[q - 1];
      if p > 0 {
        assert r[p] == tail[p - 1];
      }
    }
  }

  /** Every element of a sequence ordered by count has at least the first
      one's count. */
  lemma FirstIsLeast(table: map<string, seq<string>>, sorted: seq<string>)
    requires ByCount(table, sorted) && sorted != []
    ensures forall y :: y in sorted ==> Count(table, sorted[0]) <= Count(table, y)
  {
    forall y | y in sorted
      ensures Count(table, sorted[0]) <= Count(table, y)
    {
      var j :| 0 <= j < |sorted| && sorted[j] == y;
      if j > 0 {
        assert Count(table, sorted[0]) <= Count(table, sorted[j]);
      }
    }
  }

  lemma {:induction false} InsertKeepsOrder(table: map<string, seq<string>>, x: string, sorted: seq<string>)
    requires ByCount(table, sorted)
    ensures ByCount(table, InsertByCount(table, x, sorted))
    decreases |sorted|
  {
    if sorted != [] {
      FirstIsLeast(table, sorted);
      if Count(table, x) >= Count(table, sorted[0]) {
        var rest := sorted[1..];
        assert ByCount(table, rest) by {
          assert forall j :: 0 <= j < |rest| ==> rest[j] == sorted[j + 1];
        }
        InsertKeepsOrder(table, x, rest);
        InsertMembers(table, x, rest);
        assert forall y :: y in rest ==> y in sorted;
        ConsByCount(table, sorted[0], InsertByCount(table, x, rest));
      } else {
        ConsByCount(table, x, sorted);
      }
    }
  }

  /** The substances come out fewest candidates first, each as often as
      it went in. */
  lemma {:induction false} SortByCountSorts(table: map<string, seq<string>>, subs: seq<string>)
    ensures ByCount(table, SortByCount(table, subs))
    ensures multiset(SortByCount(table, subs)) == multiset(subs)
    decreases |subs|
  {
    if subs != [] {
      var init := subs[..|subs| - 1];
      SortByCountSorts(table, init);
      InsertKeepsOrder(table, subs[|subs| - 1], SortByCount(table, init));
      InsertAdds(table, subs[|subs| - 1], SortByCount(table, init));
      assert subs == init + [subs[|subs| - 1]];
    }
  }

  /** The elements of `s` whose key is `c`, in their order in `s`. */
  function WithCount(table: map<string, seq<string>>, s: seq<string>, c: nat): seq<string>
    decreases |s|
  {
    if s == [] then []
    else (if Count(table, s[0]) == c then [s[0]] else []) + WithCount(table, s[1..], c)
  }

  /** Keeping the elements of one key distributes over concatenation. */
  lemma {:induction false} WithCountConcat(table: map<string, seq<string>>, a: seq<string>, b: seq<string>, c: nat)
    ensures WithCount(table, a + b, c) == WithCount(table, a, c) + WithCount(table, b, c)
    decreases |a|
  {
    if a == [] {
      assert a + b == b;
    } else {
      var head := if Count(table, a[0]) == c then [a[0]] else [];
      calc {
        WithCount(table, a + b, c);
        { assert (a + b)[0] == a[0] && (a + b)[1..] == a[1..] + b; }
        head + WithCount(table, a[1..] + b, c);
        { WithCountConcat(table, a[1..], b, c); }
        head + (WithCount(table, a[1..], c) + WithCount(table, b, c));
      }
    }
  }

  /** No element with key `c`, nothing kept. */
  lemma {:induction false} WithoutCount(table: map<string, seq<string>>, s: seq<string>, c: nat)
    requires forall y :: y in s ==> Count(table, y) != c
    ensures WithCount(table, s, c) == []
    decreases |s|
  {
    if s != [] {
      assert forall y :: y in s[1..] ==> y in s;
      WithoutCount(table, s[1..], c);
    }
  }

  /** Keeping the elements of one key, one element at the front. */
  lemma WithCountCons(table: map<string, seq<string>>, h: string, s: seq<string>, c: nat)
    ensures WithCount(table, [h] + s, c) == (if Count(table, h) == c then [h] else []) + WithCount(table, s, c)
  {
    assert ([h] + s)[0] == h && ([h] + s)[1..] == s;
  }

  /** The tail of a sequence ordered by count is ordered too. */
  lemma ByCountTail(table: map<string, seq<string>>, sorted: seq<string>)
    requires ByCount(table, sorted) && sorted != []
    ensures ByCount(table, sorted[1..])
  {
    assert forall j :: 0 <= j < |sorted| - 1 ==> sorted[1..][j] == sorted[j + 1];
  }

  /** An `x` with a smaller key than every element goes in front, and
      then no element has its key. */
  lemma InsertStableFront(table: map<string, seq<string>>, x: string, sorted: seq<string>, c: nat)
    requires ByCount(table, sorted) && sorted != [] && Count(table, x) < Count(table, sorted[0])
    ensures WithCount(table, InsertByCount(table, x, sorted), c) ==
            WithCount(table, sorted, c) + WithCount(table, [x], c)
  {
    WithCountCons(table, x, [], c);
    assert [x] + [] == [x];
    WithCountCons(table, x, sorted, c);
    if Count(table, x) == c {
      FirstIsLeast(table, sorted);
      WithoutCount(table, sorted, c);
    }
  }

  /** Inserting into a sorted sequence puts `x` after every element of
      the same key. */
  lemma {:induction false} InsertStable(table: map<string, seq<string>>, x: string, sorted: seq<string>, c: nat)
    requires ByCount(table, sorted)
    ensures WithCount(table, InsertByCount(table, x, sorted), c) ==
            WithCount(table, sorted, c) + WithCount(table, [x], c)
    decreases |sorted|
  {
    if sorted == [] {
      assert [] + WithCount(table, [x], c) == WithCount(table, [x], c);
    } else if Count(table, x) < Count(table, sorted[0]) {
      InsertStableFront(table, x, sorted, c);
    } else {
      var rest := sorted[1..];
      ByCountTail(table, sorted);
      var head := if Count(table, sorted[0]) == c then [sorted[0]] else [];
      calc {
        WithCount(table, InsertByCount(table, x, sorted), c);
        WithCount(table, [sorted[0]] + InsertByCount(table, x, rest), c);
        { WithCountCons(table, sorted[0], InsertByCount(table, x, rest), c); }
        head + WithCount(table, InsertByCount(table, x, rest), c);
        { InsertStable(table, x, rest, c); }
        head + (WithCount(table, rest, c) + WithCount(table, [x], c));
        { WithCountCons(table, sorted[0], rest, c); assert [sorted[0]] + rest == sorted; }
        WithCount(table, sorted, c) + WithCount(table, [x], c);
      }
    }
  }

  /** `sorted` is stable: substances with the same number of candidates
      keep their relative order. */
  lemma {:induction false} SortByCountStable(table: map<string, seq<string>>, subs: seq<string>, c: nat)
    ensures WithCount(table, SortByCount(table, subs), c) == WithCount(table, subs, c)
    decreases |subs|
  {
    if subs != [] {
      var init := subs[..|subs| - 1];
      SortByCountStable(table, init, c);
      SortByCountSorts(table, init);
      InsertStable(table, subs[|subs| - 1], SortByCount(table, init), c);
      WithCountConcat(table, init, [subs[|subs| - 1]], c);
      assert subs == init + [subs[|subs| - 1]];
    }
  }

  /** The target's substances other than `"solvent"`, in the target's
      order. */
  function NonSolvent(order: seq<string>): (r: seq<string>)
    ensures forall s :: s in r <==> s in order && s != "solvent"
    decreases |order|
  {
    if order == [] then []
    else (if order[0] != "solvent" then [order[0]] else []) + NonSolvent(order[1..])
  }

  // ---------------------------------------------------------------------
  // The whole search and the solvent

  /** The allocation step of `design_concentration_advanced`: the
      target's non-solvent substances, fewest candidates first, are
      searched for from an empty usage; no such substance, no plan and an
      empty plan raise `ValueError`, and an exception of the search is
      passed on.  A plan it returns is never empty, and it raises nothing
      but those three exceptions. */
  function Search(st: Setting, targetOrder: seq<string>): (r: Result<map<string, real>>)
    ensures r.Ok? ==> r.value != map[] && NonSolvent(targetOrder) != []
    ensures r.Err? ==> r.fault == ValueError || r.fault == KeyError || r.fault == ZeroDivisionError
  {
    var subs := NonSolvent(targetOrder);
    if subs == [] then Err(ValueError)
    else
      var res := Allocate(st, SortByCount(st.table, subs), map[], 0);
      if res.Err? then Err(res.fault)
      else if res.value.None? || res.value.value == map[] then Err(ValueError)
      else Ok(res.value.value)
  }

  /** Over a sound table, with every substance of the target's order
      targeted, the search fails only with `ValueError`, and what it
      returns is the usage of a plan giving each non-solvent substance of
      the target exactly one allowed pick. */
  lemma SearchSound(st: Setting, targetOrder: seq<string>)
    requires SoundTable(st) && forall s :: s in targetOrder ==> s in st.target
    ensures Search(st, targetOrder).Err? ==> Search(st, targetOrder).fault == ValueError
    ensures Search(st, targetOrder).Ok? ==>
      exists plan :: PlanFor(st, NonSolvent(targetOrder), map[], plan, Search(st, targetOrder).value)
  {
    var subs := NonSolvent(targetOrder);
    if subs != [] {
      var sorted := SortByCount(st.table, subs);
      SortByCountSorts(st.table, subs);
      TargetedWithin(st, subs, sorted);
      AllocateSafe(st, sorted, map[], 0);
      var res := Allocate(st, sorted, map[], 0);
      if res.value.Some? {
        AllocateSound(st, sorted, map[], 0);
        var plan :| PlanFor(st, sorted, map[], plan, res.value.value);
        assert PlanFor(st, subs, map[], plan, res.value.value);
      }
    }
  }

  /** A sample every one of whose concentrations is zero. */
  predicate Blank(conc: map<string, real>)
  {
    forall s :: s in conc ==> conc[s] == 0.0
  }

  /** The first name in `order` of a blank sample, if any. */
  function FirstBlank(order: seq<string>, concs: map<string, map<string, real>>): (r: Option<nat>)
    ensures r.Some? ==> r.value < |order| && order[r.value] in concs && Blank(concs[order[r.value]])
    ensures r.Some? ==> forall j :: 0 <= j < r.value ==> !(order[j] in concs && Blank(concs[order[j]]))
    ensures r.None? ==> forall n :: n in order && n in concs ==> !Blank(concs[n])
    decreases |order|
  {
    if order == [] then None
    else if order[0] in concs && Blank(concs[order[0]]) then Some(0)
    else
      match FirstBlank(order[1..], concs)
      case Some(i) => assert order[1..][i] == order[i + 1]; Some(i + 1)
      case None => assert forall n :: n in order ==> n == order[0] || n in order[1..]; None
  }

  /** The name the solvent volume is recorded under: the first blank
      sample, or `"Solvent"` for a virtual one, which is used only when
      no sample of the order is blank. */
  function SolventName(order: seq<string>, concs: map<string, map<string, real>>): (r: string)
    ensures r == "Solvent" || (r in order && r in concs && Blank(concs[r]))
    ensures r !in order ==> forall n :: n in order && n in concs ==> !Blank(concs[n])
  {
    match FirstBlank(order, concs)
    case Some(i) => order[i]
    case None => "Solvent"
  }

  /** `_handle_solvent` on values: the volume left to fill the total goes
      to the solvent, overwriting any volume already recorded under that
      name; a negative remainder raises `ValueError`.  It succeeds exactly
      when the volumes do not already exceed the total, and the solvent's
      volume is then never negative. */
  ghost function Solvated(volumes: map<string, real>, total: real, solvent: string): (r: Result<map<string, real>>)
    ensures r.Ok? <==> SumValues(volumes) <= total
    ensures r.Err? ==> r.fault == ValueError
    ensures r.Ok? ==> solvent in r.value && r.value[solvent] >= 0.0
  {
    if total - SumValues(volumes) < 0.0 then Err(ValueError)
    else Ok(volumes[solvent := total - SumValues(volumes)])
  }

  /** The solvent tops the volumes up to the total exactly when it was not
      among them; otherwise its earlier volume is lost from the total. */
  lemma SolvatedTotal(volumes: map<string, real>, total: real, solvent: string)
    requires Solvated(volumes, total, solvent).Ok?
    ensures var r := Solvated(volumes, total, solvent).value;
      SumValues(r) == total - (if solvent in volumes then volumes[solvent] else 0.0) &&
      r.Keys == volumes.Keys + {solvent} &&
      forall n :: n in volumes && n != solvent ==> r[n] == volumes[n]
  {
    if solvent in volumes {
      SumValuesUpdate(volumes, solvent, total - SumValues(volumes));
    } else {
      SumValuesInsert(volumes, solvent, total - SumValues(volumes));
    }
  }

  /** A plan never uses a blank sample: every pick divides by a non-zero
      concentration of the sample picked. */
  lemma PlanAvoidsBlank(st: Setting, subs: seq<string>, plan: seq<Pick>, res: map<string, real>, t: string)
    requires PlanFor(st, subs, map[], plan, res) && t in st.concs && Blank(st.concs[t])
    ensures t !in res
  {
    forall i | 0 <= i < |plan|
      ensures plan[i].trial != t
    {
      assert Allowed(st, plan[i]);
    }
    ApplyAdds(map[], plan, t);
  }

  /** When the experiment has a blank sample, a successful design fills
      exactly the total volume. */
  lemma DesignFillsTotal(st: Setting, targetOrder: seq<string>, order: seq<string>)
    requires SoundTable(st) && forall s :: s in targetOrder ==> s in st.target
    requires Search(st, targetOrder).Ok? && FirstBlank(order, st.concs).Some?
    requires Solvated(Search(st, targetOrder).value, st.total, SolventName(order, st.concs)).Ok?
    ensures SumValues(Solvated(Search(st, targetOrder).value, st.total, SolventName(order, st.concs)).value) == st.total
  {
    var vols := Search(st, targetOrder).value;
    var solvent := SolventName(order, st.concs);
    SearchSound(st, targetOrder);
    var plan :| PlanFor(st, NonSolvent(targetOrder), map[], plan, vols);
    PlanAvoidsBlank(st, NonSolvent(targetOrder), plan, vols, solvent);
    SolvatedTotal(vols, st.total, solvent);
  }
}
