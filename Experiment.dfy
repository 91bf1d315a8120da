/** An experiment: the registry of its samples and the operations on it
    (Experiment.py).

    The registry `sample_dict` maps a sample name to `[id, trial]`; it is a
    Python dict, so it is modelled as the map `sampleDict` together with
    `sampleOrder`, its keys in insertion order.  `idTrialName` maps ids to
    names, `substanceDict` holds the names of the substances seen, and
    `substanceTrialDict` is the `"substance_trial_dict"` entry of
    `extra_info`: for each substance, the names of the samples holding it. */
module Experiments {
  import opened Outcomes
  import opened Sums
  import opened Sample
  import opened Keys
  import opened Concentrations
  import Graph
  import Design

  // ---------------------------------------------------------------------
  // Lists of names

  /** `list.remove(x)` on a list that holds `x`, and the list itself
      otherwise. */
  function RemoveFirst(s: seq<string>, x: string): (r: seq<string>)
    ensures x !in s ==> r == s
    ensures x in s ==> |r| == |s| - 1 && multiset(r) == multiset(s) - multiset{x}
    decreases |s|
  {
    if s == [] then []
    else
      assert s == [s[0]] + s[1..];
      if s[0] == x then s[1..]
      else [s[0]] + RemoveFirst(s[1..], x)
  }

  // ---------------------------------------------------------------------
  // Which samples hold which substance

  /** Sample `n` holds substance `s` at a positive concentration. */
  predicate Holds(concs: map<string, map<string, real>>, n: string, s: string)
  {
    n in concs && s in concs[n] && concs[n][s] > 0.0
  }

  /** The names in `order` holding `s`, in order. */
  function Holders(order: seq<string>, concs: map<string, map<string, real>>, s: string): (r: seq<string>)
    ensures forall n :: n in r <==> n in order && Holds(concs, n, s)
    ensures NoDuplicates(order) ==> NoDuplicates(r)
    decreases |order|
  {
    if order == [] then []
    else
      var last := |order| - 1;
      var rest := Holders(order[..last], concs, s);
      assert order == order[..last] + [order[last]];
      assert NoDuplicates(order) ==> order[last] !in order[..last];
      rest + (if Holds(concs, order[last], s) then [order[last]] else [])
  }

  /** The substances some sample in `order` holds. */
  function Held(order: seq<string>, concs: map<string, map<string, real>>): set<string>
  {
    set n, s | n in order && n in concs && s in concs[n] && concs[n][s] > 0.0 :: s
  }

  /** The substance-to-samples table: for every substance held somewhere,
      the names holding it, in registry order. */
  function HolderMap(order: seq<string>, concs: map<string, map<string, real>>): map<string, seq<string>>
  {
    map s | s in Held(order, concs) :: Holders(order, concs, s)
  }

  /** What the table says: `n` is listed under `s` exactly when `n` is in
      the registry and holds `s`; every list is non-empty, and lists no
      name twice when the registry does not. */
  lemma HolderMapMeaning(order: seq<string>, concs: map<string, map<string, real>>, s: string, n: string)
    ensures var t := HolderMap(order, concs);
      (s in t && n in t[s]) <==> (n in order && Holds(concs, n, s))
    ensures var t := HolderMap(order, concs);
      s in t ==> t[s] != [] && (NoDuplicates(order) ==> NoDuplicates(t[s]))
  {
    var t := HolderMap(order, concs);
    if n in order && Holds(concs, n, s) {
      assert s in Held(order, concs);
    }
    if s in t {
      var m :| m in order && m in concs && s in concs[m] && concs[m][s] > 0.0;
      assert m in t[s];
    }
  }

  /** The substances a sample holds. */
  function Positives(conc: map<string, real>): set<string>
  {
    set s | s in conc && conc[s] > 0.0
  }

  /** `acc` with `n` appended to the list of every substance of `part`
      that `conc` holds at a positive concentration. */
  function Extend(acc: map<string, seq<string>>, n: string, conc: map<string, real>, part: set<string>)
    : map<string, seq<string>>
  {
    map s | s in acc.Keys + part && (s in acc || (s in part && s in conc && conc[s] > 0.0)) ::
      (if s in acc then acc[s] else []) + (if s in part && s in conc && conc[s] > 0.0 then [n] else [])
  }

  /** The substances held after one more sample: its own are added. */
  lemma HeldSnoc(order: seq<string>, n: string, concs: map<string, map<string, real>>)
    requires n in concs
    ensures Held(order + [n], concs) == Held(order, concs) + Positives(concs[n])
  {
    var next := order + [n];
    forall s ensures s in Held(next, concs) <==> s in Held(order, concs) || s in Positives(concs[n]) {
      if s in Held(next, concs) {
        var m :| m in next && m in concs && s in concs[m] && concs[m][s] > 0.0;
        if m != n {
          assert m in order;
        }
      }
      if s in Held(order, concs) {
        var m :| m in order && m in concs && s in concs[m] && concs[m][s] > 0.0;
        assert m in next;
      }
      if s in Positives(concs[n]) {
        assert n in next;
      }
    }
  }

  /** The holders of `s` after one more sample. */
  lemma HoldersSnoc(order: seq<string>, n: string, concs: map<string, map<string, real>>, s: string)
    ensures Holders(order + [n], concs, s) ==
      Holders(order, concs, s) + (if Holds(concs, n, s) then [n] else [])
    ensures s !in Held(order, concs) ==> Holders(order, concs, s) == []
  {
    var next := order + [n];
    assert next[..|next| - 1] == order;
    if Holders(order, concs, s) != [] {
      var m := Holders(order, concs, s)[0];
      assert m in Holders(order, concs, s);
    }
  }

  /** One more sample at the end of the registry extends the table by its
      own substances. */
  lemma HolderMapSnoc(order: seq<string>, n: string, concs: map<string, map<string, real>>)
    requires n in concs
    ensures HolderMap(order + [n], concs) == Extend(HolderMap(order, concs), n, concs[n], concs[n].Keys)
  {
    var lhs := HolderMap(order + [n], concs);
    var rhs := Extend(HolderMap(order, concs), n, concs[n], concs[n].Keys);
    HolderMapSnocKeys(order, n, concs);
    forall s | s in lhs ensures lhs[s] == rhs[s] {
      HoldersSnoc(order, n, concs, s);
    }
    SameMaps(lhs, rhs);
  }

  lemma HolderMapSnocKeys(order: seq<string>, n: string, concs: map<string, map<string, real>>)
    requires n in concs
    ensures HolderMap(order + [n], concs).Keys == Extend(HolderMap(order, concs), n, concs[n], concs[n].Keys).Keys
  {
    HeldSnoc(order, n, concs);
  }

  /** `HolderMapSnoc` for the prefixes of a registry. */
  lemma HolderMapNext(order: seq<string>, k: int, concs: map<string, map<string, real>>)
    requires 0 <= k < |order| && order[k] in concs
    ensures HolderMap(order[..k + 1], concs) ==
      Extend(HolderMap(order[..k], concs), order[k], concs[order[k]], concs[order[k]].Keys)
  {
    assert order[..k + 1] == order[..k] + [order[k]];
    HolderMapSnoc(order[..k], order[k], concs);
  }

  lemma TableStep(order: seq<string>, k: int, concs: map<string, map<string, real>>,
                  table: map<string, seq<string>>, next: map<string, seq<string>>)
    requires 0 <= k < |order| && order[k] in concs
    requires table == HolderMap(order[..k], concs)
    requires next == Extend(table, order[k], concs[order[k]], concs[order[k]].Keys)
    ensures next == HolderMap(order[..k + 1], concs)
  {
    HolderMapNext(order, k, concs);
  }

  /** The table of an empty registry is empty. */
  lemma HolderMapEmpty(concs: map<string, map<string, real>>)
    ensures HolderMap([], concs) == map[]
  {
    assert Held([], concs) == {};
  }

  /** `Extend` over no substance changes nothing. */
  lemma ExtendNone(acc: map<string, seq<string>>, n: string, conc: map<string, real>)
    ensures Extend(acc, n, conc, {}) == acc
  {
    var e := Extend(acc, n, conc, {});
    assert e.Keys == acc.Keys;
    forall x | x in e ensures e[x] == acc[x] { }
  }

  /** `Extend` by one more substance. */
  lemma ExtendStep(acc: map<string, seq<string>>, n: string, conc: map<string, real>, part: set<string>, s: string)
    requires s !in part && s in conc
    ensures var e := Extend(acc, n, conc, part);
      Extend(acc, n, conc, part + {s}) == if conc[s] > 0.0 then e[s := (if s in e then e[s] else []) + [n]] else e
  {
    var e := Extend(acc, n, conc, part);
    var lhs := Extend(acc, n, conc, part + {s});
    var rhs := if conc[s] > 0.0 then e[s := (if s in e then e[s] else []) + [n]] else e;
    assert lhs.Keys == rhs.Keys;
    forall x | x in lhs ensures lhs[x] == rhs[x] { }
  }

  /** The inner loop of `gen_substance_trial_dict`: appends `n` to the
      list of every substance it holds. */
  method AddHolder(acc: map<string, seq<string>>, n: string, conc: map<string, real>)
    returns (r: map<string, seq<string>>)
    ensures r == Extend(acc, n, conc, conc.Keys)
  {
    ExtendNone(acc, n, conc);
    r := acc;
    var subs := conc.Keys;
    while subs != {}
      invariant subs <= conc.Keys
      invariant r == Extend(acc, n, conc, conc.Keys - subs)
      decreases subs
    {
      var s :| s in subs;
      ExtendStep(acc, n, conc, conc.Keys - subs, s);
      assert (conc.Keys - subs) + {s} == conc.Keys - (subs - {s});
      if conc[s] > 0.0 {
        r := r[s := (if s in r then r[s] else []) + [n]];
      }
      subs := subs - {s};
    }
    assert conc.Keys - subs == conc.Keys;
  }

  /** `gen_substance_trial_dict` over the registry's names in order and
      their concentrations. */
  method SubstanceTable(order: seq<string>, concs: map<string, map<string, real>>)
    returns (table: map<string, seq<string>>)
    requires forall n :: n in order ==> n in concs
    ensures table == HolderMap(order, concs)
  {
    table := map[];
    var k := 0;
    HolderMapEmpty(concs);
    assert order[..0] == [];
    while k < |order|
      invariant 0 <= k <= |order|
      invariant table == HolderMap(order[..k], concs)
    {
      var next := AddHolder(table, order[k], concs[order[k]]);
      TableStep(order, k, concs, table, next);
      table, k := next, k + 1;
    }
    assert order[..k] == order;
  }

  // ---------------------------------------------------------------------
  // The clean-up of `remove_trial`

  /** The lists of `table` whose substance is in `part`, with `x` taken
      out once (`list.remove`) where they hold it; `None` is in no list. */
  function Pruned(table: map<string, seq<string>>, x: Option<string>, part: set<string>): map<string, seq<string>>
  {
    map s | s in table :: if s in part && x.Some? then RemoveFirst(table[s], x.value) else table[s]
  }

  /** The substances whose list is empty. */
  function Emptied(table: map<string, seq<string>>): set<string>
  {
    set s | s in table && table[s] == []
  }

  lemma PrunedNone(table: map<string, seq<string>>, x: Option<string>)
    ensures Pruned(table, x, {}) == table
  {
    SameMaps(Pruned(table, x, {}), table);
  }

  lemma PrunedStep(table: map<string, seq<string>>, x: Option<string>, part: set<string>, s: string)
    requires s in table && s !in part
    ensures var p := Pruned(table, x, part);
      Pruned(table, x, part + {s}) == if x.Some? then p[s := RemoveFirst(table[s], x.value)] else p
  {
    var p := Pruned(table, x, part);
    var q := if x.Some? then p[s := RemoveFirst(table[s], x.value)] else p;
    SameMaps(Pruned(table, x, part + {s}), q);
  }

  /** The first loop of the clean-up: takes the removed name out of every
      list that holds it. */
  method PruneLists(table: map<string, seq<string>>, x: Option<string>) returns (r: map<string, seq<string>>)
    ensures r == Pruned(table, x, table.Keys)
  {
    PrunedNone(table, x);
    r := table;
    var rest := table.Keys;
    while rest != {}
      invariant rest <= table.Keys
      invariant r == Pruned(table, x, table.Keys - rest)
      decreases rest
    {
      var s :| s in rest;
      PrunedStep(table, x, table.Keys - rest, s);
      assert (table.Keys - rest) + {s} == table.Keys - (rest - {s});
      if x.Some? && x.value in r[s] {
        r := r[s := RemoveFirst(r[s], x.value)];
      } else if x.Some? {
        assert RemoveFirst(table[s], x.value) == r[s];
      }
      rest := rest - {s};
    }
    assert table.Keys - rest == table.Keys;
  }

  /** The second loop of the clean-up: deletes from `subs` every
      substance whose list became empty; one that is not in `subs` raises
      `KeyError`, leaving the deletions made before it. */
  method DropEmptied(subs: set<string>, table: map<string, seq<string>>) returns (r: Outcome, left: set<string>)
    ensures r == Pass <==> Emptied(table) <= subs
    ensures r == Pass ==> left == subs - Emptied(table)
    ensures r.Fail? ==> r == Fail(KeyError) && subs - Emptied(table) <= left <= subs
  {
    left := subs;
    var rest := table.Keys;
    while rest != {}
      invariant rest <= table.Keys
      invariant forall s :: s in Emptied(table) && s !in rest ==> s in subs
      invariant left == subs - (Emptied(table) - rest)
      decreases rest
    {
      var s :| s in rest;
      if table[s] == [] {
        if s !in left {
          return Fail(KeyError), left;
        }
        left := left - {s};
      }
      rest := rest - {s};
    }
    r := Pass;
  }

  /** The clean-up as the source calls it never deletes anything: without
      a name, or with a name no longer registered, no list loses an
      element, and the table has no empty list. */
  lemma NothingEmptied(order: seq<string>, concs: map<string, map<string, real>>, x: Option<string>)
    requires x.Some? ==> x.value !in order
    ensures Pruned(HolderMap(order, concs), x, HolderMap(order, concs).Keys) == HolderMap(order, concs)
    ensures Emptied(HolderMap(order, concs)) == {}
  {
    var t := HolderMap(order, concs);
    forall s | s in t ensures t[s] != [] && (x.Some? ==> x.value !in t[s]) {
      HolderMapMeaning(order, concs, s, if x.Some? then x.value else "");
    }
    SameMaps(Pruned(t, x, t.Keys), t);
  }

  /** With a registered name, the clean-up empties exactly the lists of
      the substances that sample alone holds. */
  lemma EmptiedSoleHolders(order: seq<string>, concs: map<string, map<string, real>>, x: string)
    requires NoDuplicates(order)
    ensures var t := HolderMap(order, concs);
      Emptied(Pruned(t, Some(x), t.Keys)) == set s | s in t && t[s] == [x]
  {
    var t := HolderMap(order, concs);
    var p := Pruned(t, Some(x), t.Keys);
    forall s | s in t ensures p[s] == [] <==> t[s] == [x] {
      HolderMapMeaning(order, concs, s, x);
      if p[s] == [] {
        assert |t[s]| == 1 && x in t[s];
        assert t[s][0] in t[s];
      }
    }
  }

  /** The state `remove_trial` leaves behind when it cleans up: the
      holder lists rebuilt from `order` with the removed name pruned, and
      the substances whose lists became empty deleted from `oldSubs`; one
      that is not there raises `KeyError`, after the deletions made
      before it. */
  ghost predicate CleanedUp(oldSubs: set<string>, order: seq<string>, concs: map<string, map<string, real>>,
                            x: Option<string>, table: map<string, seq<string>>, r: Outcome, left: set<string>)
  {
    var t := HolderMap(order, concs);
    table == Pruned(t, x, t.Keys) &&
    (r == Pass <==> Emptied(table) <= oldSubs) &&
    (r == Pass ==> left == oldSubs - Emptied(table)) &&
    (r.Fail? ==> r == Fail(KeyError) && oldSubs - Emptied(table) <= left <= oldSubs)
  }

  /** The clean-up of `remove_trial`, on values. */
  method CleanTables(order: seq<string>, concs: map<string, map<string, real>>, x: Option<string>, subs: set<string>)
    returns (table: map<string, seq<string>>, r: Outcome, left: set<string>)
    requires forall n :: n in order ==> n in concs
    ensures CleanedUp(subs, order, concs, x, table, r, left)
  {
    table := SubstanceTable(order, concs);
    table := PruneLists(table, x);
    r, left := DropEmptied(subs, table);
  }

  // ---------------------------------------------------------------------
  // Renaming a registry key

  /** The registry after `del d[from]; d[to] = entry`: the entry moves to
      the new key, replacing whatever `to` held. */
  function Moved<V>(d: map<string, V>, from: string, to: string): map<string, V>
    requires from in d
  {
    (d - {from})[to := d[from]]
  }

  /** After the move, the new key holds the moved entry and every other
      key is one of the old keys other than `from`, holding what it held. */
  lemma MovedMeaning<V>(d: map<string, V>, from: string, to: string, n: string)
    requires from in d
    ensures to in Moved(d, from, to) && Moved(d, from, to)[to] == d[from]
    ensures n != to ==> (n in Moved(d, from, to) <==> n in d && n != from)
    ensures n != to && n in Moved(d, from, to) ==> Moved(d, from, to)[n] == d[n]
  {
  }

  /** Moving an entry keeps the key order listing the registry's keys. */
  lemma MovedLists<V>(order: seq<string>, d: map<string, V>, from: string, to: string)
    requires Lists(order, d.Keys) && from in d
    ensures Lists(Appended(Dropped(order, from), to), Moved(d, from, to).Keys)
  {
    DroppedLists(order, d.Keys, from);
    AppendedLists(Dropped(order, from), d.Keys - {from}, to);
    assert Moved(d, from, to).Keys == d.Keys - {from} + {to};
  }

  /** The name of the object given, if any. */
  function NameOf(t: Option<Trial>): Option<string>
    reads if t.Some? then {t.value} else {}
  {
    if t.Some? then Some(t.value.name) else None
  }

  /** The name `change_trial_name` moves: the given object's name, or the
      given name, or the name bound to the given id; a name or id that
      `get_trial` or the id map cannot find, or no argument at all, raises
      `KeyError`. */
  function RenameSource(d: map<string, Entry>, ids: map<string, string>, trialId: string, oriName: string,
                        oriTrialName: Option<string>): (r: Result<string>)
    ensures r.Err? ==> r.fault == KeyError
    ensures oriTrialName.None? && oriName != "" ==> (r.Ok? <==> oriName in d)
    ensures oriTrialName.None? && oriName == "" && trialId == "" ==> r.Err?
  {
    if oriTrialName.Some? then Ok(oriTrialName.value)
    else if oriName != "" then (if oriName in d then Ok(oriName) else Err(KeyError))
    else if trialId != "" then (if trialId in ids then Ok(ids[trialId]) else Err(KeyError))
    else Err(KeyError)
  }

  /** `change_trial_name` on the registry `d` with key order `order` and id
      map `ids`: the outcome and the three new values.  Only the id path
      rebinds the id, and it does so before the name is looked up. */
  function RenameIn(d: map<string, Entry>, order: seq<string>, ids: map<string, string>, newName: string,
                    trialId: string, oriName: string, oriTrialName: Option<string>)
    : (r: (Outcome, map<string, Entry>, seq<string>, map<string, string>))
    ensures var src := RenameSource(d, ids, trialId, oriName, oriTrialName);
      (r.0 == Pass <==> src.Ok? && src.value in d) &&
      (r.0.Fail? ==> r.0 == Fail(KeyError) && r.1 == d && r.2 == order)
    ensures oriTrialName.None? && oriName == "" && trialId != "" && trialId in ids ==>
      r.3 == ids[trialId := newName]
    ensures oriTrialName.Some? || oriName != "" || trialId == "" || trialId !in ids ==> r.3 == ids
  {
    var src := RenameSource(d, ids, trialId, oriName, oriTrialName);
    var ids' := if oriTrialName.None? && oriName == "" && trialId != "" && trialId in ids
                then ids[trialId := newName] else ids;
    if src.Err? || src.value !in d then (Fail(KeyError), d, order, ids')
    else (Pass, Moved(d, src.value, newName), Appended(Dropped(order, src.value), newName), ids')
  }

  /** A rename keeps the key order listing the registry's keys. */
  lemma RenameKeepsLists(d: map<string, Entry>, order: seq<string>, ids: map<string, string>, newName: string,
                         trialId: string, oriName: string, oriTrialName: Option<string>)
    requires Lists(order, d.Keys)
    ensures var r := RenameIn(d, order, ids, newName, trialId, oriName, oriTrialName); Lists(r.2, r.1.Keys)
  {
    var src := RenameSource(d, ids, trialId, oriName, oriTrialName);
    if src.Ok? && src.value in d {
      MovedLists(order, d, src.value, newName);
    }
  }

  /** A successful rename moves the entry to `newName` and leaves every
      other entry in place.  When `newName` was not already another key,
      it comes last in the key order; when it was, the assignment after
      the `pop` keeps that key's position. */
  lemma RenameMoves(d: map<string, Entry>, order: seq<string>, ids: map<string, string>, newName: string,
                    trialId: string, oriName: string, oriTrialName: Option<string>, n: string)
    requires Lists(order, d.Keys)
    ensures var r := RenameIn(d, order, ids, newName, trialId, oriName, oriTrialName);
      var src := RenameSource(d, ids, trialId, oriName, oriTrialName);
      r.0 == Pass ==>
        newName in r.1 && r.1[newName] == d[src.value] &&
        ((newName !in d || newName == src.value) ==> r.2[|r.2| - 1] == newName) &&
        (n != newName ==> (n in r.1 <==> n in d && n != src.value) && (n in r.1 ==> r.1[n] == d[n]))
  {
    var r := RenameIn(d, order, ids, newName, trialId, oriName, oriTrialName);
    var src := RenameSource(d, ids, trialId, oriName, oriTrialName);
    if r.0 == Pass {
      MovedMeaning(d, src.value, newName, n);
      DroppedLists(order, d.Keys, src.value);
      AppendedLists(Dropped(order, src.value), d.Keys - {src.value}, newName);
    }
  }

  /** After a rename through the object or through its name, an id bound
      to the old name points at no registered sample: the id map is not
      updated on those paths. */
  lemma RenameLeavesStaleIds(d: map<string, Entry>, order: seq<string>, ids: map<string, string>, newName: string,
                             oriName: string, oriTrialName: Option<string>, i: string)
    requires oriTrialName.Some? || oriName != ""
    ensures var r := RenameIn(d, order, ids, newName, "", oriName, oriTrialName);
      var src := RenameSource(d, ids, "", oriName, oriTrialName);
      r.0 == Pass && newName != src.value && i in ids && ids[i] == src.value ==>
        i in r.3 && r.3[i] !in r.1
  {
    var src := RenameSource(d, ids, "", oriName, oriTrialName);
    if src.Ok? && src.value in d {
      MovedMeaning(d, src.value, newName, src.value);
    }
  }

  /** Renaming to a fresh key and back restores the registry. */
  lemma MovedBack<V>(d: map<string, V>, from: string, to: string)
    requires from in d && to !in d
    ensures Moved(Moved(d, from, to), to, from) == d
  {
    SameMaps(Moved(Moved(d, from, to), to, from), d);
  }

  // ---------------------------------------------------------------------
  // The registry seen as values

  /** Which registered samples are regular (neither stock nor solvent). */
  function RegularOf(d: map<string, Entry>): map<string, bool>
    reads Registered(d)`stock, Registered(d)`solvent
  {
    map k | k in d :: !d[k].trial.stock && !d[k].trial.solvent
  }

  /** The composite of every registered sample. */
  function CompositesOf(d: map<string, Entry>): map<string, map<string, real>>
    reads Registered(d)`composite
  {
    map k | k in d :: d[k].trial.composite
  }

  /** The substance table is sound for the design search: every sample
      listed under a substance is registered and holds it at a positive
      concentration. */
  lemma HolderMapSound(order: seq<string>, st: Design.Setting)
    requires st.table == HolderMap(order, st.concs)
    ensures Design.SoundTable(st)
  {
    forall s, t | s in st.table && t in st.table[s]
      ensures t in st.concs && Design.ConcOf(st.concs[t], s) > 0.0
    {
      HolderMapMeaning(order, st.concs, s, t);
    }
  }

  // ---------------------------------------------------------------------
  // Building from a 2-D description

  /** The ids the rows of a 2-D description get: the list given, unless
      there is none, or (where `blankIsNone`) it holds only empty strings,
      or its length differs from the number of rows; then the serials
      drawn for the rows, which the caller passes in as `generated`. */
  function RowIds(idArray: Option<seq<string>>, generated: seq<string>, blankIsNone: bool): (r: seq<string>)
    ensures |r| == |generated|
    ensures idArray.Some? && |idArray.value| == |generated| && (exists k :: 0 <= k < |generated| && idArray.value[k] != "") ==>
      r == idArray.value
    ensures !blankIsNone && idArray.Some? && |idArray.value| == |generated| ==> r == idArray.value
  {
    if idArray.None? || (blankIsNone && forall k :: 0 <= k < |idArray.value| ==> idArray.value[k] == "") ||
       |idArray.value| != |generated|
    then generated
    else idArray.value
  }

  /** The names of `names` not among `keys`, in order. */
  function Unseen(names: seq<string>, keys: set<string>): seq<string>
    decreases |names|
  {
    if names == [] then []
    else Unseen(names[..|names| - 1], keys) + (if names[|names| - 1] in keys then [] else [names[|names| - 1]])
  }

  /** The ids are pairwise different and none is bound yet. */
  predicate FreshIds(ids: seq<string>, bound: map<string, string>)
  {
    NoDuplicates(ids) && forall i :: 0 <= i < |ids| ==> ids[i] !in bound
  }

  /** The substance names that the first `k` rows bring into the
      substance set: those of every row whose name is not among `keys`
      (a row for a registered name does no substance bookkeeping). */
  function NewSubstances(names: seq<string>, rows: map<string, map<string, real>>, k: nat, keys: set<string>): set<string>
    requires k <= |names|
  {
    if k == 0 then {}
    else
      var n := names[k - 1];
      NewSubstances(names, rows, k - 1, keys) + (if n in keys || n !in rows then {} else rows[n].Keys)
  }

  /** A substance is brought in exactly when some row with a new name
      carries it. */
  lemma {:induction false} NewSubstancesMeaning(names: seq<string>, rows: map<string, map<string, real>>, k: nat, keys: set<string>, s: string)
    requires k <= |names|
    ensures s in NewSubstances(names, rows, k, keys) <==>
      exists i :: 0 <= i < k && names[i] !in keys && names[i] in rows && s in rows[names[i]]
  {
    if k > 0 {
      NewSubstancesMeaning(names, rows, k - 1, keys, s);
      if names[k - 1] !in keys && names[k - 1] in rows && s in rows[names[k - 1]] {
        assert 0 <= k - 1 < k && names[k - 1] !in keys && names[k - 1] in rows && s in rows[names[k - 1]];
      }
    }
  }

  /** One more row adds its substances to the set when its name is new. */
  lemma NewSubstancesNext(names: seq<string>, rows: map<string, map<string, real>>, k: nat, keys: set<string>,
                          s0: set<string>, before: set<string>, after: set<string>)
    requires k < |names| && names[k] in rows
    requires before == s0 + NewSubstances(names, rows, k, keys)
    requires after == before + (if names[k] in keys then {} else rows[names[k]].Keys)
    ensures after == s0 + NewSubstances(names, rows, k + 1, keys)
  {
  }

  /** The stock sample made for a row: name, experiment, id and
      concentrations as given, no sources and no uses, no amount, and a
      solvent exactly when the row names no substance. */
  ghost predicate MadeStock(t: Trial, n: string, expName: string, conc: map<string, real>, id: string)
    reads t
  {
    t.name == n && t.expName == expName && t.id == id && t.substanceConc == conc &&
    t.composite == map[] && t.master == map[] && t.totalAmount == 0.0 && t.existingAmount == 0.0 &&
    t.stock && t.solvent == (conc == map[])
  }

  /** The ids of a registry's entries, by name. */
  function EntryIds(d: map<string, Entry>): (r: map<string, string>)
    ensures r.Keys == d.Keys
  {
    map n | n in d :: d[n].id
  }

  /** Replacing an entry replaces its id and nothing else. */
  lemma EntryIdsSet(d: map<string, Entry>, n: string, e: Entry)
    ensures EntryIds(d[n := e]) == EntryIds(d)[n := e.id]
    ensures n in d && e.id == d[n].id ==> EntryIds(d[n := e]) == EntryIds(d)
  {
    if n in d && e.id == d[n].id {
      assert EntryIds(d)[n := e.id] == EntryIds(d);
    }
  }

  /** What `stock_from_2d_array` does to the registry's ids over the
      first `k` rows: a row whose name is registered keeps the entry's id,
      a new one gets the row's id. */
  function StockedEntryIds(names: seq<string>, ids: seq<string>, k: nat, entryIds: map<string, string>): map<string, string>
    requires k <= |names| == |ids|
  {
    if k == 0 then entryIds
    else
      var e := StockedEntryIds(names, ids, k - 1, entryIds);
      if names[k - 1] in e then e else e[names[k - 1] := ids[k - 1]]
  }

  /** What it does to the key order: a new name is appended. */
  function StockedOrder(names: seq<string>, ids: seq<string>, k: nat, entryIds: map<string, string>, order: seq<string>): seq<string>
    requires k <= |names| == |ids|
  {
    if k == 0 then order
    else
      var o := StockedOrder(names, ids, k - 1, entryIds, order);
      if names[k - 1] in StockedEntryIds(names, ids, k - 1, entryIds) then o else o + [names[k - 1]]
  }

  /** What it does to the id map: a new name's id is bound to it. */
  function StockedIdMap(names: seq<string>, ids: seq<string>, k: nat, entryIds: map<string, string>,
                        idMap: map<string, string>): map<string, string>
    requires k <= |names| == |ids|
  {
    if k == 0 then idMap
    else
      var m := StockedIdMap(names, ids, k - 1, entryIds, idMap);
      if names[k - 1] in StockedEntryIds(names, ids, k - 1, entryIds) then m else m[ids[k - 1] := names[k - 1]]
  }

  /** After `k` rows the registry holds the old names and the first `k`
      row names. */
  lemma {:induction false} StockKeys(names: seq<string>, ids: seq<string>, k: nat, entryIds: map<string, string>)
    requires k <= |names| == |ids|
    ensures forall n :: n in StockedEntryIds(names, ids, k, entryIds) <==> n in entryIds || n in names[..k]
  {
    if k > 0 {
      StockKeys(names, ids, k - 1, entryIds);
      assert names[..k] == names[..k - 1] + [names[k - 1]];
    }
  }

  /** An old name keeps its id. */
  lemma {:induction false} StockKept(names: seq<string>, ids: seq<string>, k: nat, entryIds: map<string, string>)
    requires k <= |names| == |ids|
    ensures forall n :: n in entryIds ==>
      n in StockedEntryIds(names, ids, k, entryIds) && StockedEntryIds(names, ids, k, entryIds)[n] == entryIds[n]
  {
    if k > 0 {
      StockKept(names, ids, k - 1, entryIds);
    }
  }

  /** With distinct names, row `k`'s name is registered before the row
      exactly when it was at the start. */
  lemma StockKnown(names: seq<string>, ids: seq<string>, k: nat, entryIds: map<string, string>)
    requires k < |names| == |ids| && NoDuplicates(names)
    ensures names[k] in StockedEntryIds(names, ids, k, entryIds) <==> names[k] in entryIds
  {
    StockKeys(names, ids, k, entryIds);
    assert names[k] !in names[..k];
  }

  /** With distinct names, a new row name has its row's id. */
  lemma {:induction false} StockNew(names: seq<string>, ids: seq<string>, k: nat, entryIds: map<string, string>)
    requires k <= |names| == |ids| && NoDuplicates(names)
    ensures forall i :: 0 <= i < k && names[i] !in entryIds ==>
      names[i] in StockedEntryIds(names, ids, k, entryIds) && StockedEntryIds(names, ids, k, entryIds)[names[i]] == ids[i]
  {
    if k > 0 {
      StockNew(names, ids, k - 1, entryIds);
      StockKnown(names, ids, k - 1, entryIds);
      forall i | 0 <= i < k - 1
        ensures names[i] != names[k - 1]
      {
      }
    }
  }

  /** With distinct names, the key order gains the new row names, in
      row order. */
  lemma {:induction false} StockOrder(names: seq<string>, ids: seq<string>, k: nat, entryIds: map<string, string>, order: seq<string>)
    requires k <= |names| == |ids| && NoDuplicates(names)
    ensures StockedOrder(names, ids, k, entryIds, order) == order + Unseen(names[..k], entryIds.Keys)
  {
    if k > 0 {
      StockOrder(names, ids, k - 1, entryIds, order);
      StockKnown(names, ids, k - 1, entryIds);
      OrderNext(names, k - 1, entryIds.Keys, order);
    }
  }

  /** With distinct names, the id map gains exactly the ids of the new
      row names. */
  lemma {:induction false} StockIdKeys(names: seq<string>, ids: seq<string>, k: nat, entryIds: map<string, string>,
                                       idMap: map<string, string>)
    requires k <= |names| == |ids| && NoDuplicates(names)
    ensures forall x :: x in StockedIdMap(names, ids, k, entryIds, idMap) <==>
      x in idMap || exists i :: 0 <= i < k && names[i] !in entryIds && ids[i] == x
  {
    if k > 0 {
      var j := k - 1;
      StockIdKeys(names, ids, j, entryIds, idMap);
      StockKnown(names, ids, j, entryIds);
      var prev := StockedIdMap(names, ids, j, entryIds, idMap);
      var cur := StockedIdMap(names, ids, k, entryIds, idMap);
      assert forall x :: x in cur <==> x in prev || (names[j] !in entryIds && x == ids[j]);
      forall x | x in cur && x !in idMap
        ensures exists i :: 0 <= i < k && names[i] !in entryIds && ids[i] == x
      {
        if x in prev {
          var i :| 0 <= i < j && names[i] !in entryIds && ids[i] == x;
        } else {
          assert names[j] !in entryIds && ids[j] == x;
        }
      }
      forall x, i | 0 <= i < k && names[i] !in entryIds && ids[i] == x
        ensures x in cur
      {
        if i < j {
          assert x in prev;
        }
      }
    }
  }

  /** With fresh ids, the old bindings are kept. */
  lemma {:induction false} StockIdKept(names: seq<string>, ids: seq<string>, k: nat, entryIds: map<string, string>,
                                       idMap: map<string, string>)
    requires k <= |names| == |ids| && FreshIds(ids, idMap)
    ensures forall x :: x in idMap ==>
      x in StockedIdMap(names, ids, k, entryIds, idMap) && StockedIdMap(names, ids, k, entryIds, idMap)[x] == idMap[x]
  {
    if k > 0 {
      StockIdKept(names, ids, k - 1, entryIds, idMap);
      assert ids[k - 1] !in idMap;
    }
  }

  /** With distinct names and fresh distinct ids, a new row name's id is
      bound to it. */
  lemma {:induction false} StockIdNew(names: seq<string>, ids: seq<string>, k: nat, entryIds: map<string, string>,
                                      idMap: map<string, string>)
    requires k <= |names| == |ids| && NoDuplicates(names) && FreshIds(ids, idMap)
    ensures forall i :: 0 <= i < k && names[i] !in entryIds ==>
      ids[i] in StockedIdMap(names, ids, k, entryIds, idMap) && StockedIdMap(names, ids, k, entryIds, idMap)[ids[i]] == names[i]
  {
    if k > 0 {
      StockIdNew(names, ids, k - 1, entryIds, idMap);
      StockKnown(names, ids, k - 1, entryIds);
      forall i | 0 <= i < k - 1
        ensures ids[i] != ids[k - 1]
      {
      }
    }
  }

  /** Before row `k`, with distinct names and fresh distinct ids, a new
      row name finds its id unbound. */
  lemma StockIdFree(names: seq<string>, ids: seq<string>, k: nat, entryIds: map<string, string>, idMap: map<string, string>)
    requires k < |names| == |ids| && NoDuplicates(names) && FreshIds(ids, idMap)
    ensures ids[k] !in StockedIdMap(names, ids, k, entryIds, idMap)
  {
    StockIdKeys(names, ids, k, entryIds, idMap);
    assert ids[k] !in idMap;
    forall i | 0 <= i < k
      ensures ids[i] != ids[k]
    {
    }
  }

  /** Row `k` appends its name to the key order when it is new. */
  lemma OrderNext(names: seq<string>, k: nat, keys: set<string>, order0: seq<string>)
    requires k < |names|
    ensures order0 + Unseen(names[..k + 1], keys) ==
            (order0 + Unseen(names[..k], keys)) + (if names[k] in keys then [] else [names[k]])
  {
    var before := Unseen(names[..k], keys);
    assert names[..k + 1][..k] == names[..k];
    if names[k] !in keys {
      SnocAfter(order0, before, names[k]);
    }
  }

  lemma SnocAfter(a: seq<string>, b: seq<string>, x: string)
    ensures (a + b) + [x] == a + (b + [x])
  {
  }

  /** The registry `d`, key order `order` and id map `idm` after the
      first `k` rows, with `made` the samples made for them, from `d0`,
      `order0` and `ids0`: ids, order and id map as the `Stocked...`
      functions say, each row's entry holding its sample, and every other
      entry as it was. */
  ghost predicate StockedUpTo(names: seq<string>, ids: seq<string>, k: nat, d0: map<string, Entry>, order0: seq<string>,
                              ids0: map<string, string>, d: map<string, Entry>, order: seq<string>,
                              idm: map<string, string>, made: seq<Trial>)
    requires k <= |names| == |ids|
  {
    EntryIds(d) == StockedEntryIds(names, ids, k, EntryIds(d0)) &&
    order == StockedOrder(names, ids, k, EntryIds(d0), order0) &&
    idm == StockedIdMap(names, ids, k, EntryIds(d0), ids0) &&
    |made| == k && (forall i :: 0 <= i < k ==> names[i] in d && d[names[i]].trial == made[i]) &&
    (forall x :: x in d0 && x !in names ==> x in d && d[x] == d0[x])
  }

  /** A row for a registered name keeps the bookkeeping in step: the
      entry keeps its id and takes the new sample. */
  lemma StockedKnown(names: seq<string>, ids: seq<string>, k: nat, d0: map<string, Entry>, order0: seq<string>,
                     ids0: map<string, string>, d: map<string, Entry>, order: seq<string>,
                     idm: map<string, string>, made: seq<Trial>, t: Trial)
    requires k < |names| == |ids| && NoDuplicates(names) && names[k] in d
    requires StockedUpTo(names, ids, k, d0, order0, ids0, d, order, idm, made)
    ensures StockedUpTo(names, ids, k + 1, d0, order0, ids0, d[names[k] := Entry(d[names[k]].id, t)], order, idm, made + [t])
  {
    var n := names[k];
    var d' := d[n := Entry(d[n].id, t)];
    EntryIdsSet(d, n, Entry(d[n].id, t));
    assert n in StockedEntryIds(names, ids, k, EntryIds(d0));
    StockedRows(names, k, d0, d, made, Entry(d[n].id, t));
  }

  /** A row for a new name keeps the bookkeeping in step: the name is
      registered under the row's id, appended to the order and bound to
      the id. */
  lemma StockedNew(names: seq<string>, ids: seq<string>, k: nat, d0: map<string, Entry>, order0: seq<string>,
                   ids0: map<string, string>, d: map<string, Entry>, order: seq<string>,
                   idm: map<string, string>, made: seq<Trial>, t: Trial)
    requires k < |names| == |ids| && NoDuplicates(names) && names[k] !in d
    requires StockedUpTo(names, ids, k, d0, order0, ids0, d, order, idm, made)
    ensures StockedUpTo(names, ids, k + 1, d0, order0, ids0, d[names[k] := Entry(ids[k], t)],
                        order + [names[k]], idm[ids[k] := names[k]], made + [t])
  {
    var n := names[k];
    EntryIdsSet(d, n, Entry(ids[k], t));
    assert n !in StockedEntryIds(names, ids, k, EntryIds(d0));
    StockedRows(names, k, d0, d, made, Entry(ids[k], t));
  }

  /** One more row keeps the bookkeeping in step. */
  lemma StockedNext(names: seq<string>, ids: seq<string>, k: nat, d0: map<string, Entry>, order0: seq<string>,
                    ids0: map<string, string>, d: map<string, Entry>, order: seq<string>,
                    idm: map<string, string>, made: seq<Trial>, t: Trial)
    requires k < |names| == |ids| && NoDuplicates(names)
    requires StockedUpTo(names, ids, k, d0, order0, ids0, d, order, idm, made)
    ensures var n := names[k];
      StockedUpTo(names, ids, k + 1, d0, order0, ids0,
                  d[n := Entry(if n in d then d[n].id else ids[k], t)],
                  if n in d then order else order + [n],
                  if n in d then idm else idm[ids[k] := n], made + [t])
  {
    if names[k] in d {
      StockedKnown(names, ids, k, d0, order0, ids0, d, order, idm, made, t);
    } else {
      StockedNew(names, ids, k, d0, order0, ids0, d, order, idm, made, t);
    }
  }

  /** Setting row `k`'s entry to a new sample leaves the earlier rows'
      samples and every other old entry alone. */
  lemma StockedRows(names: seq<string>, k: nat, d0: map<string, Entry>, d: map<string, Entry>, made: seq<Trial>, e: Entry)
    requires k < |names| && NoDuplicates(names) && |made| == k
    requires forall i :: 0 <= i < k ==> names[i] in d && d[names[i]].trial == made[i]
    requires forall x :: x in d0 && x !in names ==> x in d && d[x] == d0[x]
    ensures forall i :: 0 <= i < k + 1 ==> names[i] in d[names[k] := e] && d[names[k] := e][names[i]].trial == (made + [e.trial])[i]
    ensures forall x :: x in d0 && x !in names ==> x in d[names[k] := e] && d[names[k] := e][x] == d0[x]
  {
    forall i | 0 <= i < k
      ensures names[i] != names[k]
    {
    }
  }

  // ---------------------------------------------------------------------
  // Building an experiment from a sheet

  /** A registry entry as the sheet builder sees it: the entry's id and
      the name its sample object carries. */
  datatype Slot = Slot(id: string, objName: string)

  /** The registry as values: the slots by registry name, the key order
      and the id map. */
  datatype Registry = Registry(slots: map<string, Slot>, order: seq<string>, idMap: map<string, string>)

  /** An outcome together with the registry as the operation leaves it,
      after a failure too. */
  datatype Step = Step(outcome: Outcome, reg: Registry)

  /** The slots of a registry of entries. */
  function SlotsOf(d: map<string, Entry>): (r: map<string, Slot>)
    reads Registered(d)`name
    ensures r.Keys == d.Keys
  {
    map k | k in d :: Slot(d[k].id, d[k].trial.name)
  }

  /** Deleting a key from the registry deletes its slot. */
  lemma SlotsWithout(d: map<string, Entry>, key: string)
    ensures SlotsOf(d - {key}) == SlotsOf(d) - {key}
  {
    SameMaps(SlotsOf(d - {key}), SlotsOf(d) - {key});
  }

  /** `Unbind` on the view of a registry of entries: the entry's slot and
      its key go, then its id. */
  lemma UnbindEntries(d: map<string, Entry>, order: seq<string>, ids: map<string, string>, key: string)
    requires key in d
    ensures var id := d[key].id;
      var v' := Registry(SlotsOf(d - {key}), Dropped(order, key), ids);
      Unbind(Registry(SlotsOf(d), order, ids), key) ==
        if id in ids then Step(Pass, v'.(idMap := ids - {id})) else Step(Fail(KeyError), v')
  {
    SlotsWithout(d, key);
  }

  /** The slots stay as they were while no registered object changes its
      name. */
  twostate lemma SlotsKept(d: map<string, Entry>)
    requires unchanged(Registered(d)`name)
    ensures SlotsOf(d) == old(SlotsOf(d))
  {
  }

  /** Deleting a key keeps only registered objects. */
  lemma RegisteredWithout(d: map<string, Entry>, key: string)
    ensures Registered(d - {key}) <= Registered(d)
  {
  }

  /** Moving an entry to a new key keeps only registered objects. */
  lemma RegisteredMoved(d: map<string, Entry>, from: string, to: string)
    requires from in d
    ensures Registered(Moved(d, from, to)) <= Registered(d)
  {
    forall o | o in Registered(Moved(d, from, to)) ensures o in Registered(d) {
      var k :| k in Moved(d, from, to) && Moved(d, from, to)[k].trial == o;
      if k == to {
        assert d[from].trial == o;
      } else {
        assert d[k].trial == o;
      }
    }
  }

  /** Setting a key adds at most the new entry's object. */
  lemma RegisteredSet(d: map<string, Entry>, n: string, e: Entry)
    ensures Registered(d[n := e]) <= Registered(d) + {e.trial}
  {
    forall o | o in Registered(d[n := e]) ensures o in Registered(d) + {e.trial} {
      var k :| k in d[n := e] && d[n := e][k].trial == o;
      if k != n {
        assert d[k].trial == o;
      }
    }
  }

  /** Moving an entry to a new key moves its slot. */
  lemma SlotsMoved(d: map<string, Entry>, from: string, to: string)
    requires from in d
    ensures SlotsOf(Moved(d, from, to)) == Moved(SlotsOf(d), from, to)
  {
    SameMaps(SlotsOf(Moved(d, from, to)), Moved(SlotsOf(d), from, to));
  }

  /** Setting an entry sets its slot. */
  lemma SlotsSet(d: map<string, Entry>, n: string, e: Entry)
    ensures SlotsOf(d[n := e]) == SlotsOf(d)[n := Slot(e.id, e.trial.name)]
  {
    SameMaps(SlotsOf(d[n := e]), SlotsOf(d)[n := Slot(e.id, e.trial.name)]);
  }

  /** The names of a sequence, as a set. */
  function Elements(s: seq<string>): set<string>
  {
    set i | 0 <= i < |s| :: s[i]
  }

  /** The names phase 0 of `new_exp_from_2d_array` deletes, in key order:
      every sample that is not a stock, or whose name is not a row of the
      sheet. */
  function Doomed(order: seq<string>, stocks: set<string>, rows: set<string>): seq<string>
    decreases |order|
  {
    if order == [] then []
    else (if order[0] !in stocks || order[0] !in rows then [order[0]] else []) + Doomed(order[1..], stocks, rows)
  }

  /** Phase 0 deletes exactly the samples that are not stocks or not rows,
      each once. */
  lemma {:induction false} DoomedMeaning(order: seq<string>, stocks: set<string>, rows: set<string>)
    requires NoDuplicates(order)
    ensures NoDuplicates(Doomed(order, stocks, rows))
    ensures forall n :: n in Doomed(order, stocks, rows) <==> n in order && (n !in stocks || n !in rows)
    decreases |order|
  {
    if order != [] {
      var x, tail := order[0], order[1..];
      assert order == [x] + tail;
      assert NoDuplicates(tail) by {
        forall p, q | 0 <= p < q < |tail| ensures tail[p] != tail[q] {
          assert tail[p] == order[p + 1] && tail[q] == order[q + 1];
        }
      }
      DoomedMeaning(tail, stocks, rows);
      var rest := Doomed(tail, stocks, rows);
      if x !in stocks || x !in rows {
        assert x !in tail by {
          forall j | 0 <= j < |tail| ensures tail[j] != x {
            assert order[j + 1] == tail[j];
          }
        }
        var r := [x] + rest;
        forall p, q | 0 <= p < q < |r| ensures r[p] != r[q] {
          if p == 0 {
            assert r[q] == rest[q - 1];
          } else {
            assert r[p] == rest[p - 1] && r[q] == rest[q - 1];
          }
        }
      }
    }
  }

  /** The first loop of phase 0 of `new_exp_from_2d_array`: the names,
      in key order, of the samples that are not stocks or not rows of
      the sheet. */
  method Condemned(order: seq<string>, stocks: set<string>, rows: set<string>) returns (doomed: seq<string>)
    ensures doomed == Doomed(order, stocks, rows)
  {
    doomed := [];
    for i := 0 to |order|
      invariant doomed + Doomed(order[i..], stocks, rows) == Doomed(order, stocks, rows)
    {
      var key := order[i];
      assert order[i..] == [key] + order[i + 1..];
      var keep := key in stocks && key in rows;
      Regroup(doomed, if keep then [] else [key], Doomed(order[i + 1..], stocks, rows));
      if !keep {
        doomed := doomed + [key];
      }
    }
    assert order[|order|..] == [] && doomed + [] == doomed;
  }

  /** One deletion of phase 0: looking the entry up raises `KeyError`
      when `key` is not registered; otherwise the entry goes first, then
      its id, whose absence from the id map raises `KeyError`. */
  function Unbind(v: Registry, key: string): (r: Step)
    ensures r.outcome == Pass || r.outcome == Fail(KeyError)
    ensures r.reg.slots == v.slots - {key}
    ensures r.outcome == Pass <==> key in v.slots && v.slots[key].id in v.idMap
  {
    if key !in v.slots then Step(Fail(KeyError), v)
    else
      var id := v.slots[key].id;
      var v' := v.(slots := v.slots - {key}, order := Dropped(v.order, key));
      if id !in v.idMap then Step(Fail(KeyError), v') else Step(Pass, v'.(idMap := v.idMap - {id}))
  }

  /** Phase 0's deletions, one name at a time, stopping at the first
      failure. */
  function Clear(v: Registry, doomed: seq<string>): (r: Step)
    ensures r.outcome == Pass || r.outcome == Fail(KeyError)
    ensures r.outcome == Pass ==> forall j :: 0 <= j < |doomed| ==> doomed[j] !in r.reg.slots
    ensures r.reg.slots.Keys <= v.slots.Keys
    decreases |doomed|
  {
    if doomed == [] then Step(Pass, v)
    else
      var st := Unbind(v, doomed[0]);
      if st.outcome.Fail? then st else Clear(st.reg, doomed[1..])
  }

  /** One step of `Clear`: the head is unbound, then the rest cleared. */
  lemma ClearHead(v: Registry, doomed: seq<string>)
    requires doomed != []
    ensures var st := Unbind(v, doomed[0]);
      Clear(v, doomed) == if st.outcome.Fail? then st else Clear(st.reg, doomed[1..])
  {
  }

  /** Every doomed name is registered with a bound id, and no two of them
      share an id. */
  predicate Releasable(v: Registry, doomed: seq<string>)
  {
    (forall i :: 0 <= i < |doomed| ==> doomed[i] in v.slots && v.slots[doomed[i]].id in v.idMap) &&
    (forall i, j :: 0 <= i < j < |doomed| && doomed[i] in v.slots && doomed[j] in v.slots ==>
       v.slots[doomed[i]].id != v.slots[doomed[j]].id)
  }

  /** The ids of the registered names among `names`. */
  function IdsOf(slots: map<string, Slot>, names: seq<string>): set<string>
  {
    set i | 0 <= i < |names| && names[i] in slots :: slots[names[i]].id
  }

  /** Clearing distinct names succeeds exactly when they are releasable,
      and then deletes their entries, their keys and their ids and
      nothing else; it only ever raises `KeyError`. */
  lemma {:induction false} ClearMeaning(v: Registry, doomed: seq<string>)
    requires NoDuplicates(doomed)
    ensures var st := Clear(v, doomed);
      (st.outcome == Pass <==> Releasable(v, doomed)) &&
      (st.outcome.Fail? ==> st.outcome == Fail(KeyError)) &&
      (st.outcome == Pass ==>
         st.reg == Registry(v.slots - Elements(doomed), Without(v.order, Elements(doomed)), v.idMap - IdsOf(v.slots, doomed)))
    decreases |doomed|
  {
    if doomed == [] {
      WithoutNothing(v.order);
      assert Elements(doomed) == {} && IdsOf(v.slots, doomed) == {};
      SameMaps(v.slots - {}, v.slots);
      SameMaps(v.idMap - {}, v.idMap);
    } else if doomed[0] in v.slots && v.slots[doomed[0]].id in v.idMap {
      var key, rest := doomed[0], doomed[1..];
      var id := v.slots[key].id;
      var v' := Registry(v.slots - {key}, Dropped(v.order, key), v.idMap - {id});
      assert Clear(v, doomed) == Clear(v', rest);
      ClearTail(doomed);
      ClearMeaning(v', rest);
      ClearReleasable(v, doomed);
      if Releasable(v, doomed) {
        ClearSets(v, doomed);
        WithoutDropped(v.order, key, Elements(rest));
      }
    }
  }

  /** The tail of distinct names is distinct and misses the head. */
  lemma ClearTail(doomed: seq<string>)
    requires NoDuplicates(doomed) && doomed != []
    ensures NoDuplicates(doomed[1..]) && doomed[0] !in doomed[1..]
    ensures Elements(doomed) == {doomed[0]} + Elements(doomed[1..])
  {
    var rest := doomed[1..];
    forall p, q | 0 <= p < q < |rest| ensures rest[p] != rest[q] {
      assert rest[p] == doomed[p + 1] && rest[q] == doomed[q + 1];
    }
    forall j | 0 <= j < |rest| ensures rest[j] != doomed[0] {
      assert rest[j] == doomed[j + 1];
    }
    forall x | x in Elements(doomed) ensures x in {doomed[0]} + Elements(rest) {
      var i :| 0 <= i < |doomed| && doomed[i] == x;
      if i > 0 {
        assert rest[i - 1] == x;
      }
    }
    forall x | x in Elements(rest) ensures x in Elements(doomed) {
      var i :| 0 <= i < |rest| && rest[i] == x;
      assert doomed[i + 1] == x;
    }
  }

  /** With the head released, the rest is releasable from what is left
      exactly when all of it is releasable from the start. */
  lemma ClearReleasable(v: Registry, doomed: seq<string>)
    requires NoDuplicates(doomed) && doomed != [] && doomed[0] in v.slots && v.slots[doomed[0]].id in v.idMap
    ensures var key, id := doomed[0], v.slots[doomed[0]].id;
      Releasable(v, doomed) <==> Releasable(Registry(v.slots - {key}, Dropped(v.order, key), v.idMap - {id}), doomed[1..])
  {
    var key, rest, id := doomed[0], doomed[1..], v.slots[doomed[0]].id;
    var v' := Registry(v.slots - {key}, Dropped(v.order, key), v.idMap - {id});
    ClearTail(doomed);
    if Releasable(v, doomed) {
      forall i | 0 <= i < |rest|
        ensures rest[i] in v'.slots && v'.slots[rest[i]].id in v'.idMap
      {
        assert rest[i] == doomed[i + 1];
      }
      forall i, j | 0 <= i < j < |rest| && rest[i] in v'.slots && rest[j] in v'.slots
        ensures v'.slots[rest[i]].id != v'.slots[rest[j]].id
      {
        assert rest[i] == doomed[i + 1] && rest[j] == doomed[j + 1];
      }
    }
    if Releasable(v', rest) {
      forall i | 0 <= i < |doomed|
        ensures doomed[i] in v.slots && v.slots[doomed[i]].id in v.idMap
      {
        if i > 0 {
          assert doomed[i] == rest[i - 1];
        }
      }
      forall i, j | 0 <= i < j < |doomed| && doomed[i] in v.slots && doomed[j] in v.slots
        ensures v.slots[doomed[i]].id != v.slots[doomed[j]].id
      {
        assert doomed[j] == rest[j - 1];
        if i > 0 {
          assert doomed[i] == rest[i - 1];
        } else {
          assert v'.slots[rest[j - 1]].id in v'.idMap;
        }
      }
    }
  }

  /** Releasing the head and then the rest deletes the same entries and
      ids as releasing them all. */
  lemma ClearSets(v: Registry, doomed: seq<string>)
    requires NoDuplicates(doomed) && doomed != [] && doomed[0] in v.slots
    ensures var key, rest := doomed[0], doomed[1..];
      (v.slots - {key}) - Elements(rest) == v.slots - Elements(doomed) &&
      (v.idMap - {v.slots[key].id}) - IdsOf(v.slots - {key}, rest) == v.idMap - IdsOf(v.slots, doomed)
  {
    var key, rest := doomed[0], doomed[1..];
    ClearTail(doomed);
    SameMaps((v.slots - {key}) - Elements(rest), v.slots - Elements(doomed));
    assert IdsOf(v.slots, doomed) == {v.slots[key].id} + IdsOf(v.slots - {key}, rest) by {
      forall x | x in IdsOf(v.slots, doomed) ensures x in {v.slots[key].id} + IdsOf(v.slots - {key}, rest) {
        var i :| 0 <= i < |doomed| && doomed[i] in v.slots && v.slots[doomed[i]].id == x;
        if i > 0 {
          assert rest[i - 1] == doomed[i] && rest[i - 1] in v.slots - {key};
        }
      }
      forall x | x in IdsOf(v.slots - {key}, rest) ensures x in IdsOf(v.slots, doomed) {
        var i :| 0 <= i < |rest| && rest[i] in v.slots - {key} && (v.slots - {key})[rest[i]].id == x;
        assert doomed[i + 1] == rest[i];
      }
    }
    SameMaps((v.idMap - {v.slots[key].id}) - IdsOf(v.slots - {key}, rest), v.idMap - IdsOf(v.slots, doomed));
  }

  /** Phase 1 of `new_exp_from_2d_array` for one row: a row whose id is
      bound renames the sample registered under that id's name, through
      the name its object carries (`change_trial_name` given the object),
      and leaves the id map as it is; any other row registers a new sample
      under the row's name and id.  A lookup that misses raises
      `KeyError`. */
  function PlaceRow(v: Registry, n: string, id: string): Step
  {
    if id in v.idMap then
      var tn := v.idMap[id];
      if tn !in v.slots || v.slots[tn].objName !in v.slots then Step(Fail(KeyError), v)
      else
        var src := v.slots[tn].objName;
        Step(Pass, v.(slots := Moved(v.slots, src, n), order := Appended(Dropped(v.order, src), n)))
    else Step(Pass, Registry(v.slots[n := Slot(id, n)], Appended(v.order, n), v.idMap[id := n]))
  }

  /** Phase 1 over the rows in order, stopping at the first failure. */
  function Place(v: Registry, names: seq<string>, ids: seq<string>): Step
    requires |names| == |ids|
    decreases |names|
  {
    if names == [] then Step(Pass, v)
    else
      var st := PlaceRow(v, names[0], ids[0]);
      if st.outcome.Fail? then st else Place(st.reg, names[1..], ids[1..])
  }

  /** Phases 0 and 1 of `new_exp_from_2d_array` on values: `Clear` of the
      names `Doomed` picks from the key order, then, when that passed,
      `Place` of the rows, whose failure is raised again as `RuntimeError`. */
  function Rebuilt(v: Registry, stocks: set<string>, rows: set<string>, names: seq<string>, ids: seq<string>)
    : (r: Step)
    requires |names| == |ids|
    ensures r.outcome == Pass || r.outcome == Fail(KeyError) || r.outcome == Fail(RuntimeError)
  {
    var cleared := Clear(v, Doomed(v.order, stocks, rows));
    if cleared.outcome.Fail? then cleared
    else
      var placed := Place(cleared.reg, names, ids);
      Step(if placed.outcome == Pass then Pass else Fail(RuntimeError), placed.reg)
  }

  /** With distinct names and ids none of which is bound, phase 1
      succeeds, registers every row under its own id, binds the ids,
      appends the names not registered before to the key order and keeps
      everything else. */
  lemma PlaceFresh(v: Registry, names: seq<string>, ids: seq<string>)
    requires |names| == |ids| && NoDuplicates(names) && FreshIds(ids, v.idMap) && Lists(v.order, v.slots.Keys)
    ensures var st := Place(v, names, ids);
      st.outcome == Pass &&
      (forall i :: 0 <= i < |names| ==> names[i] in st.reg.slots && st.reg.slots[names[i]] == Slot(ids[i], names[i])) &&
      (forall k :: k !in names ==> (k in st.reg.slots <==> k in v.slots) && (k in v.slots ==> st.reg.slots[k] == v.slots[k])) &&
      (forall i :: 0 <= i < |names| ==> ids[i] in st.reg.idMap && st.reg.idMap[ids[i]] == names[i]) &&
      (forall x :: x in v.idMap ==> x in st.reg.idMap && st.reg.idMap[x] == v.idMap[x]) &&
      (forall x :: x in st.reg.idMap ==> x in v.idMap || x in ids) &&
      st.reg.order == v.order + Unseen(names, v.slots.Keys)
  {
    PlaceFreshSlots(v, names, ids);
    PlaceFreshIds(v, names, ids);
    PlaceFreshOrder(v, names, ids);
  }

  /** The first row of a fresh sheet, and what is left of it. */
  lemma PlaceFreshHead(v: Registry, names: seq<string>, ids: seq<string>)
    requires |names| == |ids| && names != [] && NoDuplicates(names) && FreshIds(ids, v.idMap)
    ensures var v' := Registry(v.slots[names[0] := Slot(ids[0], names[0])], Appended(v.order, names[0]), v.idMap[ids[0] := names[0]]);
      Place(v, names, ids) == Place(v', names[1..], ids[1..]) &&
      NoDuplicates(names[1..]) && names[0] !in names[1..] &&
      FreshIds(ids[1..], v'.idMap) && ids[0] !in ids[1..]
  {
    var restIds := ids[1..];
    ClearTail(names);
    forall j | 0 <= j < |restIds| ensures restIds[j] != ids[0] && restIds[j] !in v.idMap {
      assert restIds[j] == ids[j + 1];
    }
    forall p, q | 0 <= p < q < |restIds| ensures restIds[p] != restIds[q] {
      assert restIds[p] == ids[p + 1] && restIds[q] == ids[q + 1];
    }
  }

  /** Phase 1 on a fresh sheet passes, and the slots are the rows' over the old ones. */
  lemma {:induction false} PlaceFreshSlots(v: Registry, names: seq<string>, ids: seq<string>)
    requires |names| == |ids| && NoDuplicates(names) && FreshIds(ids, v.idMap)
    ensures var st := Place(v, names, ids);
      st.outcome == Pass &&
      (forall i :: 0 <= i < |names| ==> names[i] in st.reg.slots && st.reg.slots[names[i]] == Slot(ids[i], names[i])) &&
      (forall k :: k !in names ==> (k in st.reg.slots <==> k in v.slots) && (k in v.slots ==> st.reg.slots[k] == v.slots[k]))
    decreases |names|
  {
    if names != [] {
      var v' := Registry(v.slots[names[0] := Slot(ids[0], names[0])], Appended(v.order, names[0]), v.idMap[ids[0] := names[0]]);
      PlaceFreshHead(v, names, ids);
      PlaceFreshSlots(v', names[1..], ids[1..]);
      forall i | 0 < i < |names|
        ensures names[i] == names[1..][i - 1] && ids[i] == ids[1..][i - 1]
      {
      }
    }
  }

  /** Phase 1 on a fresh sheet binds the rows' ids and keeps the old bindings. */
  lemma {:induction false} PlaceFreshIds(v: Registry, names: seq<string>, ids: seq<string>)
    requires |names| == |ids| && NoDuplicates(names) && FreshIds(ids, v.idMap)
    ensures var m := Place(v, names, ids).reg.idMap;
      (forall i :: 0 <= i < |names| ==> ids[i] in m && m[ids[i]] == names[i]) &&
      (forall x :: x in v.idMap ==> x in m && m[x] == v.idMap[x]) &&
      (forall x :: x in m ==> x in v.idMap || x in ids)
    decreases |names|
  {
    if names != [] {
      var v' := Registry(v.slots[names[0] := Slot(ids[0], names[0])], Appended(v.order, names[0]), v.idMap[ids[0] := names[0]]);
      PlaceFreshHead(v, names, ids);
      PlaceFreshIds(v', names[1..], ids[1..]);
      forall i | 0 < i < |names|
        ensures names[i] == names[1..][i - 1] && ids[i] == ids[1..][i - 1]
      {
      }
      forall x | x in ids[1..] ensures x in ids {
        var j :| 0 <= j < |ids[1..]| && ids[1..][j] == x;
        assert ids[j + 1] == x;
      }
    }
  }

  /** Phase 1 on a fresh sheet appends the new names to the key order, in row order. */
  lemma {:induction false} PlaceFreshOrder(v: Registry, names: seq<string>, ids: seq<string>)
    requires |names| == |ids| && NoDuplicates(names) && FreshIds(ids, v.idMap) && Lists(v.order, v.slots.Keys)
    ensures Place(v, names, ids).reg.order == v.order + Unseen(names, v.slots.Keys)
    decreases |names|
  {
    if names == [] {
      assert Unseen(names, v.slots.Keys) == [];
    } else {
      var n, keys := names[0], v.slots.Keys;
      var v' := Registry(v.slots[n := Slot(ids[0], n)], Appended(v.order, n), v.idMap[ids[0] := n]);
      PlaceFreshHead(v, names, ids);
      AppendedLists(v.order, keys, n);
      assert v'.slots.Keys == keys + {n};
      PlaceFreshOrder(v', names[1..], ids[1..]);
      UnseenKeys(names[1..], keys, n);
      var head := if n in keys then [] else [n];
      assert Appended(v.order, n) == v.order + head;
      assert names == [n] + names[1..];
      UnseenCons(n, names[1..], keys);
      calc {
        Place(v, names, ids).reg.order;
        v'.order + Unseen(names[1..], keys + {n});
        (v.order + head) + Unseen(names[1..], keys);
        { Regroup(v.order, head, Unseen(names[1..], keys)); }
        v.order + (head + Unseen(names[1..], keys));
      }
    }
  }

  /** Concatenation regroups. */
  lemma Regroup(a: seq<string>, b: seq<string>, c: seq<string>)
    ensures (a + b) + c == a + (b + c)
  {
  }

  /** `Unseen` read from the front. */
  lemma {:induction false} UnseenCons(x: string, rest: seq<string>, keys: set<string>)
    ensures Unseen([x] + rest, keys) == (if x in keys then [] else [x]) + Unseen(rest, keys)
    decreases |rest|
  {
    var s := [x] + rest;
    if rest == [] {
      assert s[..|s| - 1] == [];
    } else {
      var front := rest[..|rest| - 1];
      var y := rest[|rest| - 1];
      assert s[..|s| - 1] == [x] + front && s[|s| - 1] == y;
      UnseenCons(x, front, keys);
      assert rest[..|rest| - 1] == front;
    }
  }

  /** A key the names do not contain makes no difference to `Unseen`. */
  lemma {:induction false} UnseenKeys(names: seq<string>, keys: set<string>, x: string)
    requires x !in names
    ensures Unseen(names, keys + {x}) == Unseen(names, keys)
    decreases |names|
  {
    if names != [] {
      UnseenKeys(names[..|names| - 1], keys, x);
    }
  }

  /** A row whose id is bound to a sample carrying its registry name, under
      a different row name, renames that sample but leaves the id bound to
      the old name, which no longer names a sample: the id is stale, and
      phase 2's lookup by id will not find the row. */
  lemma PlaceLeavesStaleId(v: Registry, n: string, id: string)
    requires id in v.idMap && v.idMap[id] in v.slots && v.slots[v.idMap[id]].objName == v.idMap[id] && n != v.idMap[id]
    ensures var st := PlaceRow(v, n, id);
      st.outcome == Pass && n in st.reg.slots && st.reg.slots[n] == v.slots[v.idMap[id]] &&
      id in st.reg.idMap && st.reg.idMap[id] !in st.reg.slots
  {
    MovedMeaning(v.slots, v.idMap[id], n, v.idMap[id]);
  }

  /** One component of a sheet row: the source's name and its amount, or
      `None` where the cell is not a number. */
  datatype Part = Part(source: string, amount: Option<real>)

  /** The components of a row are keys of a dict: no source twice. */
  predicate DistinctSources(parts: seq<Part>)
  {
    forall i, j :: 0 <= i < j < |parts| ==> parts[i].source != parts[j].source
  }

  /** The composite a row describes: its numeric components. */
  function Numbers(parts: seq<Part>): map<string, real>
    decreases |parts|
  {
    if parts == [] then map[]
    else
      var p := parts[|parts| - 1];
      var m := Numbers(parts[..|parts| - 1]);
      if p.amount.Some? then m[p.source := p.amount.value] else m
  }

  /** The numeric components of a row whose source `keys` lacks. */
  predicate Unknown(parts: seq<Part>, keys: set<string>)
  {
    exists i :: 0 <= i < |parts| && parts[i].amount.Some? && parts[i].source !in keys
  }

  /** A row with distinct sources describes the composite that holds
      exactly its numeric components, each at its amount. */
  lemma {:induction false} NumbersMeaning(parts: seq<Part>)
    requires DistinctSources(parts)
    ensures forall c :: c in Numbers(parts) <==> exists i :: 0 <= i < |parts| && parts[i].source == c && parts[i].amount.Some?
    ensures forall i :: 0 <= i < |parts| && parts[i].amount.Some? ==> Numbers(parts)[parts[i].source] == parts[i].amount.value
    decreases |parts|
  {
    if parts != [] {
      var front := parts[..|parts| - 1];
      assert DistinctSources(front) by {
        forall i, j | 0 <= i < j < |front| ensures front[i].source != front[j].source {
          assert front[i] == parts[i] && front[j] == parts[j];
        }
      }
      NumbersMeaning(front);
      forall c ensures c in Numbers(parts) <==> exists i :: 0 <= i < |parts| && parts[i].source == c && parts[i].amount.Some? {
        if c in Numbers(front) {
          var i :| 0 <= i < |front| && front[i].source == c && front[i].amount.Some?;
          assert parts[i] == front[i];
        }
        if exists i :: 0 <= i < |parts| && parts[i].source == c && parts[i].amount.Some? {
          var i :| 0 <= i < |parts| && parts[i].source == c && parts[i].amount.Some?;
          if i < |front| {
            assert front[i] == parts[i];
          }
        }
      }
      forall i | 0 <= i < |parts| && parts[i].amount.Some?
        ensures Numbers(parts)[parts[i].source] == parts[i].amount.value
      {
        if i < |front| {
          assert front[i] == parts[i];
          assert parts[i].source != parts[|parts| - 1].source;
        }
      }
    }
  }

  /** Taking one more component of a row. */
  lemma NumbersNext(parts: seq<Part>, k: int)
    requires 0 <= k < |parts|
    ensures Numbers(parts[..k + 1]) ==
      if parts[k].amount.Some? then Numbers(parts[..k])[parts[k].source := parts[k].amount.value] else Numbers(parts[..k])
  {
    assert parts[..k + 1][..k] == parts[..k];
  }

  /** A row prefix stays free of unknown sources when the next component
      is skipped or known. */
  lemma UnknownNext(parts: seq<Part>, k: int, keys: set<string>)
    requires 0 <= k < |parts| && !Unknown(parts[..k], keys)
    requires parts[k].amount.Some? ==> parts[k].source in keys
    ensures !Unknown(parts[..k + 1], keys)
  {
    var front := parts[..k + 1];
    forall i | 0 <= i < |front| && front[i].amount.Some? ensures front[i].source in keys {
      if i < k {
        assert front[i] == parts[..k][i];
      }
    }
  }

  /** A source not among the first `k` components is not in their
      composite. */
  lemma NumbersMisses(parts: seq<Part>, k: int)
    requires 0 <= k < |parts| && DistinctSources(parts)
    ensures parts[k].source !in Numbers(parts[..k])
  {
    var front := parts[..k];
    assert DistinctSources(front) by {
      forall i, j | 0 <= i < j < |front| ensures front[i].source != front[j].source {
        assert front[i] == parts[i] && front[j] == parts[j];
      }
    }
    NumbersMeaning(front);
    forall i | 0 <= i < |front| ensures front[i].source != parts[k].source {
      assert front[i] == parts[i];
    }
  }

  // ---------------------------------------------------------------------
  // The experiment

  class Experiment {
    var name: string
    const tableId: string
    var sampleDict: map<string, Entry>
    var sampleOrder: seq<string>
    var idTrialName: map<string, string>
    var substanceDict: set<string>
    var substanceTrialDict: map<string, seq<string>>

    /** `sampleOrder` lists the registry's keys. */
    predicate Valid()
      reads this
    {
      Lists(sampleOrder, sampleDict.Keys)
    }

    /** The two registries agree: every id names a registered sample whose
        entry carries that id, and every registered sample object carries
        its registry name and id. */
    ghost predicate Coherent()
      reads this, Registered(sampleDict)
    {
      (forall n :: n in sampleDict ==>
         sampleDict[n].trial.name == n && sampleDict[n].trial.id == sampleDict[n].id) &&
      (forall i :: i in idTrialName ==> idTrialName[i] in sampleDict && sampleDict[idTrialName[i]].id == i)
    }

    /** An empty experiment.  A falsy `table_id` is replaced by a random
        serial number, which the caller draws and passes in as `tableId`. */
    constructor (name: string, tableId: string)
      ensures this.name == name && this.tableId == tableId
      ensures sampleDict == map[] && sampleOrder == [] && idTrialName == map[]
      ensures substanceDict == {} && substanceTrialDict == map[]
      ensures Valid() && Coherent()
    {
      this.name := name;
      this.tableId := tableId;
      sampleDict := map[];
      sampleOrder := [];
      idTrialName := map[];
      substanceDict := {};
      substanceTrialDict := map[];
    }

    /** `get_trial`: looks a sample up by name, or else by id through
        `idTrialName`; a missing key raises `KeyError`, and with neither
        argument (the empty string stands for Python's `None`) the result
        is `None`. */
    function GetTrial(trialName: string, trialId: string): (r: Result<Option<Trial>>)
      reads this
      ensures trialName != "" ==> (r.Ok? <==> trialName in sampleDict)
      ensures trialName == "" && trialId != "" ==>
        (r.Ok? <==> trialId in idTrialName && idTrialName[trialId] in sampleDict)
      ensures r.Err? ==> r.fault == KeyError
      ensures r.Ok? && r.value.Some? ==> r.value.value in Registered(sampleDict)
      ensures r == Ok(None) <==> trialName == "" && trialId == ""
    {
      if trialName != "" then
        if trialName !in sampleDict then Err(KeyError) else Ok(Some(sampleDict[trialName].trial))
      else if trialId != "" then
        if trialId !in idTrialName || idTrialName[trialId] !in sampleDict then Err(KeyError)
        else Ok(Some(sampleDict[idTrialName[trialId]].trial))
      else Ok(None)
    }

    /** In coherent registries, looking a sample up by id finds the sample
        registered under that id's name, and the object carries that id. */
    lemma GetTrialById(trialId: string)
      requires Coherent() && trialId != "" && trialId in idTrialName && idTrialName[trialId] != ""
      ensures GetTrial("", trialId) == GetTrial(idTrialName[trialId], "")
      ensures GetTrial("", trialId).Ok? && GetTrial("", trialId).value.Some?
      ensures GetTrial("", trialId).value.value.id == trialId
    {
    }

    /** In coherent registries every id is bound to a sample carrying that
        name and that id. */
    lemma CoherentBinds(id: string)
      requires Coherent() && id in idTrialName
      ensures BoundTo(id)
    {
    }

    /** `gen_substance_trial_dict`: the table from each substance to the
        registered samples holding it at a positive concentration, in
        registry order; it is also stored in `extra_info`. */
    method GenSubstanceTrialDict() returns (table: map<string, seq<string>>)
      requires Valid()
      modifies this
      ensures table == HolderMap(sampleOrder, old(ConcsOf(sampleDict))) && substanceTrialDict == table
      ensures name == old(name) && sampleDict == old(sampleDict) && sampleOrder == old(sampleOrder)
      ensures idTrialName == old(idTrialName) && substanceDict == old(substanceDict)
    {
      table := SubstanceTable(sampleOrder, ConcsOf(sampleDict));
      substanceTrialDict := table;
    }

    /** Found: the object given carries an id and a name both registered. */
    ghost predicate Found(theTrial: Option<Trial>)
      reads this, if theTrial.Some? then {theTrial.value} else {}
    {
      theTrial.Some? && theTrial.value.id in idTrialName && theTrial.value.name in sampleDict
    }

    /** `remove_trial`: unregisters the object given, first its id, then
        its name (a missing key raises `KeyError` at that point; no object
        raises `AttributeError` when its name is printed).  Unless
        `keepSubstance`, the substance table is regenerated, the optional
        name is taken out of its lists, and the substances whose list
        became empty are deleted. */
    method RemoveTrial(theTrial: Option<Trial>, trialName: Option<string>, keepSubstance: bool) returns (r: Outcome)
      requires Valid()
      modifies this
      ensures Valid() && name == old(name)
      ensures theTrial.None? ==> r == Fail(AttributeError) && unchanged(this)
      ensures theTrial.Some? && theTrial.value.id !in old(idTrialName) ==> r == Fail(KeyError) && unchanged(this)
      ensures theTrial.Some? && theTrial.value.id in old(idTrialName) ==>
        idTrialName == old(idTrialName) - {theTrial.value.id}
      ensures theTrial.Some? && theTrial.value.id in old(idTrialName) && theTrial.value.name !in old(sampleDict) ==>
        r == Fail(KeyError) && sampleDict == old(sampleDict) && sampleOrder == old(sampleOrder)
      ensures old(Found(theTrial)) ==>
        sampleDict == old(sampleDict) - {theTrial.value.name} &&
        sampleOrder == Dropped(old(sampleOrder), theTrial.value.name)
      ensures !old(Found(theTrial)) || keepSubstance ==>
        substanceDict == old(substanceDict) && substanceTrialDict == old(substanceTrialDict)
      ensures old(Found(theTrial)) && keepSubstance ==> r == Pass
      ensures old(Found(theTrial)) && !keepSubstance ==>
        CleanedUp(old(substanceDict), sampleOrder, ConcsOf(sampleDict), trialName, substanceTrialDict, r, substanceDict)
    {
      if theTrial.None? {
        return Fail(AttributeError);
      }
      var t := theTrial.value;
      if t.id !in idTrialName {
        return Fail(KeyError);
      }
      idTrialName := idTrialName - {t.id};
      if t.name !in sampleDict {
        return Fail(KeyError);
      }
      DroppedLists(sampleOrder, sampleDict.Keys, t.name);
      sampleDict := sampleDict - {t.name};
      sampleOrder := Dropped(sampleOrder, t.name);
      if keepSubstance {
        return Pass;
      }
      r := CleanSubstances(trialName);
    }

    /** The clean-up of `remove_trial` (see there). */
    method CleanSubstances(trialName: Option<string>) returns (r: Outcome)
      requires Valid()
      modifies this
      ensures name == old(name) && sampleDict == old(sampleDict) && sampleOrder == old(sampleOrder)
      ensures idTrialName == old(idTrialName)
      ensures CleanedUp(old(substanceDict), sampleOrder, ConcsOf(sampleDict), trialName, substanceTrialDict, r, substanceDict)
    {
      ghost var concs := ConcsOf(sampleDict);
      var table, left;
      table, r, left := CleanTables(sampleOrder, ConcsOf(sampleDict), trialName, substanceDict);
      substanceTrialDict, substanceDict := table, left;
      assert ConcsOf(sampleDict) == concs;
    }

    /** `generate_trial`: registers `t` under its name and id and records
        its substances.  When the id is already bound, the sample it names
        is removed first (with `remove_trial`) and the id is deleted again
        afterwards; since `remove_trial` has already deleted it, this
        raises `KeyError` whenever the registries are coherent. */
    method GenerateTrial(t: Trial) returns (r: Outcome)
      requires Valid()
      modifies this
      ensures Valid() && name == old(name)
      ensures t.name in sampleDict ==> sampleDict[t.name] == Entry(t.id, t)
      ensures forall n :: n in sampleDict && n != t.name ==> n in old(sampleDict) && sampleDict[n] == old(sampleDict)[n]
      ensures r == Pass ==> t.id in idTrialName && idTrialName[t.id] == t.name
      ensures t.id !in old(idTrialName) ==>
        r == Pass &&
        sampleDict == old(sampleDict)[t.name := Entry(t.id, t)] &&
        sampleOrder == Appended(old(sampleOrder), t.name) &&
        idTrialName == old(idTrialName)[t.id := t.name] &&
        substanceDict == old(substanceDict) + t.substanceConc.Keys &&
        substanceTrialDict == old(substanceTrialDict)
      ensures old(BoundTo(t.id)) ==>
        r == Fail(KeyError) &&
        idTrialName == old(idTrialName) - {t.id} &&
        sampleDict == old(sampleDict)[t.name := Entry(t.id, t)] - {old(idTrialName)[t.id]}
    {
      ghost var bound := BoundTo(t.id);
      AppendedLists(sampleOrder, sampleDict.Keys, t.name);
      sampleDict := sampleDict[t.name := Entry(t.id, t)];
      sampleOrder := Appended(sampleOrder, t.name);
      if t.id in idTrialName {
        r := DropPrevious(t.id, bound);
        if r.Fail? {
          return;
        }
      }
      idTrialName := idTrialName[t.id := t.name];
      substanceDict := substanceDict + t.substanceConc.Keys;
      r := Pass;
    }

    /** The sample registered under the name `id` is bound to carries that
        name and that id. */
    ghost predicate BoundTo(id: string)
      reads this, Registered(sampleDict)
    {
      id in idTrialName && idTrialName[id] in sampleDict &&
      sampleDict[idTrialName[id]].trial.name == idTrialName[id] &&
      sampleDict[idTrialName[id]].trial.id == id
    }

    /** The re-registration branch of `generate_trial`: removes the sample
        the id is bound to with `remove_trial`, then deletes the id. */
    method DropPrevious(id: string, ghost bound: bool) returns (r: Outcome)
      requires Valid() && id in idTrialName
      requires bound ==> BoundTo(id)
      modifies this
      ensures Valid() && name == old(name)
      ensures forall n :: n in sampleDict ==> n in old(sampleDict) && sampleDict[n] == old(sampleDict)[n]
      ensures r == Pass ==> id !in idTrialName
      ensures bound ==>
        r == Fail(KeyError) &&
        idTrialName == old(idTrialName) - {id} &&
        sampleDict == old(sampleDict) - {old(idTrialName)[id]}
    {
      var oriName := idTrialName[id];
      if oriName !in sampleDict {
        return Fail(KeyError);
      }
      var ori := sampleDict[oriName].trial;
      ghost var found := Found(Some(ori));
      assert bound ==> found && ori.name == oriName && ori.id == id;
      r := RemoveTrial(Some(ori), None, false);
      if found {
        NothingEmptied(sampleOrder, ConcsOf(sampleDict), None);
      }
      if r.Fail? {
        return;
      }
      if id !in idTrialName {
        return Fail(KeyError);
      }
      idTrialName := idTrialName - {id};
    }

    /** `change_trial_name` (see `RenameIn`).  The sample object keeps its
        own name. */
    method ChangeTrialName(newName: string, trialId: string, oriName: string, oriTrial: Option<Trial>)
      returns (r: Outcome)
      requires Valid()
      modifies this
      ensures (r, sampleDict, sampleOrder, idTrialName) ==
        RenameIn(old(sampleDict), old(sampleOrder), old(idTrialName), newName, trialId, oriName, old(NameOf(oriTrial)))
      ensures Valid() && name == old(name)
      ensures substanceDict == old(substanceDict) && substanceTrialDict == old(substanceTrialDict)
    {
      var src := RenameSource(sampleDict, idTrialName, trialId, oriName, NameOf(oriTrial));
      if oriTrial.None? && oriName == "" && trialId != "" && trialId in idTrialName {
        idTrialName := idTrialName[trialId := newName];
      }
      if src.Err? || src.value !in sampleDict {
        return Fail(KeyError);
      }
      MovedLists(sampleOrder, sampleDict, src.value, newName);
      sampleDict := Moved(sampleDict, src.value, newName);
      sampleOrder := Appended(Dropped(sampleOrder, src.value), newName);
      r := Pass;
    }

    /** `_calculate_trial_concentration`: a stock or solvent keeps its
        concentrations; any other sample gets the volume-weighted average
        of its registered sources, unless a zero total raises. */
    method CalculateTrialConcentration(t: Trial) returns (r: Outcome)
      modifies t`substanceConc
      ensures !t.IsRegularSample() ==> r == Pass && t.substanceConc == old(t.substanceConc)
      ensures t.IsRegularSample() ==>
        var b := Blend(t.composite, old(ConcsOf(sampleDict)));
        (b.Ok? ==> r == Pass && t.substanceConc == b.value) &&
        (b.Err? ==> r == Fail(b.fault) && t.substanceConc == old(t.substanceConc))
    {
      if t.stock || t.solvent {
        return Pass;
      }
      var res := BlendOf(t.composite, ConcsOf(sampleDict));
      if res.Err? {
        return Fail(res.fault);
      }
      t.substanceConc := res.value;
      r := Pass;
    }

    /** The sample registered under `n` is regular and its composite is
        `comps[n]`. */
    predicate Current(n: string, comps: map<string, map<string, real>>)
      reads this, Registered(sampleDict)`stock, Registered(sampleDict)`solvent, Registered(sampleDict)`composite
    {
      n in sampleDict && n in comps && sampleDict[n].trial.composite == comps[n] &&
      !sampleDict[n].trial.stock && !sampleDict[n].trial.solvent
    }

    /** `_calculate_trial_concentration` on the regular sample registered
        under `n`, seen on the registry's concentrations: only the entry
        of `n` changes, to `v`. */
    method CalculateEntry(n: string, ghost comps: map<string, map<string, real>>) returns (r: Outcome, v: map<string, real>)
      requires Current(n, comps) && Distinct(sampleDict.Keys, sampleDict)
      modifies sampleDict[n].trial`substanceConc
      ensures r == Pass || r == Fail(ZeroDivisionError)
      ensures r == Pass ==> Blend(comps[n], old(ConcsOf(sampleDict))) == Ok(v) &&
                            ConcsOf(sampleDict) == old(ConcsOf(sampleDict))[n := v]
      ensures r.Fail? ==> Blend(comps[n], ConcsOf(sampleDict)).Err? && ConcsOf(sampleDict) == old(ConcsOf(sampleDict))
    {
      var t := sampleDict[n].trial;
      ghost var before := ConcsOf(sampleDict);
      r := CalculateTrialConcentration(t);
      v := t.substanceConc;
      if r == Pass {
        forall m | m in sampleDict ensures ConcsOf(sampleDict)[m] == before[n := v][m] {
          if m != n {
            assert sampleDict[m].trial != t;
          }
        }
        SameMaps(ConcsOf(sampleDict), before[n := v]);
      } else {
        assert ConcsOf(sampleDict) == before;
      }
    }

    /** `update_all_concentrations`: the regular samples, in registry
        order, are sorted so that every sample comes after its regular
        sources; a cycle among them raises `ValueError` before anything
        changes; otherwise each one in turn gets the average of its
        sources, until a zero total raises `ZeroDivisionError` (see
        `Recomputed`). */
    method UpdateAllConcentrations() returns (r: Outcome)
      requires Valid() && Distinct(sampleDict.Keys, sampleDict)
      modifies Registered(sampleDict)`substanceConc
      ensures Recomputed(sampleOrder, old(RegularOf(sampleDict)), old(CompositesOf(sampleDict)),
                         old(ConcsOf(sampleDict)), ConcsOf(sampleDict), r)
    {
      ghost var concs := ConcsOf(sampleDict);
      var regular := RegularOf(sampleDict);
      var comps := CompositesOf(sampleDict);
      var names, sorted;
      r, names, sorted := Schedule(sampleOrder, regular, comps);
      if r.Fail? {
        RecomputedCycle(sampleOrder, regular, comps, concs);
        return;
      }
      ghost var done;
      r, done := MixAll(names, comps, sorted);
      RecomputedMixed(sampleOrder, regular, comps, names, sorted, concs, ConcsOf(sampleDict), done, r);
    }

    /** The last loop of `update_all_concentrations`: the samples of
        `sorted` get their averages one after the other, each reading the
        concentrations left by the ones before; `done` lists those
        updated. */
    method MixAll(names: seq<string>, comps: map<string, map<string, real>>, sorted: seq<int>)
      returns (r: Outcome, ghost done: seq<string>)
      requires Distinct(sampleDict.Keys, sampleDict) && NoDuplicates(names)
      requires forall n :: n in names ==> n in comps && Current(n, comps)
      requires Graph.Distinct(sorted) && Graph.Topological(PredsOf(names, comps), sorted)
      modifies Registered(sampleDict)`substanceConc
      ensures Mixed(names, comps, sorted, old(ConcsOf(sampleDict)), ConcsOf(sampleDict), done)
      ensures r == Pass || r == Fail(ZeroDivisionError)
      ensures r == Pass <==> |done| == |sorted|
      ensures r.Fail? ==> (|done| < |sorted| && 0 <= sorted[|done|] < |names| &&
                           Blend(comps[names[sorted[|done|]]], ConcsOf(sampleDict)).Err?)
    {
      ghost var concs := ConcsOf(sampleDict);
      ghost var next := concs;
      done := [];
      MixStart(names, comps, sorted, concs);
      var k := 0;
      while k < |sorted|
        invariant 0 <= k <= |sorted| && |done| == k
        invariant Mixed(names, comps, sorted, concs, next, done)
        invariant ConcsOf(sampleDict) == next
      {
        MixPending(names, comps, sorted, concs, next, done);
        var n := names[sorted[k]];
        assert Current(n, comps);
        var res, v := CalculateEntry(n, comps);
        if res.Fail? {
          return Fail(ZeroDivisionError), done;
        }
        MixStep(names, comps, sorted, concs, next, done, v);
        next, done := next[n := v], done + [n];
        k := k + 1;
      }
      r := Pass;
    }

    /** `_handle_solvent`: the volume missing from the total is recorded
        under the first sample, in registry order, whose concentrations
        are all zero, or under `"Solvent"` when there is none (see
        `Design.Solvated`). */
    method HandleSolvent(volumes: map<string, real>, total: real) returns (r: Result<map<string, real>>)
      ensures r == Design.Solvated(volumes, total, Design.SolventName(sampleOrder, ConcsOf(sampleDict)))
    {
      var current := SumOf(volumes);
      var solventVol := total - current;
      if solventVol < 0.0 {
        return Err(ValueError);
      }
      var solvent := Design.SolventName(sampleOrder, ConcsOf(sampleDict));
      r := Ok(volumes[solvent := solventVol]);
    }

    /** `_create_final_trial`: a new regular sample named `finalName`,
        composed of `volumes`, with the target as its concentrations, the
        sum of the volumes as its total, an empty id and no amount left,
        registered with `generate_trial`.  The sources' `master` maps are
        left as they were: the mix is not recorded as one of their uses,
        unlike a mix built with `add_to_composite`, and an empty id
        already bound in the registry makes the registration raise. */
    method CreateFinalTrial(finalName: string, volumes: map<string, real>, target: map<string, real>)
      returns (r: Outcome, t: Trial)
      requires Valid()
      modifies this
      ensures fresh(t) && t.name == finalName && t.expName == name && t.id == ""
      ensures t.composite == volumes && t.master == map[] && t.substanceConc == target
      ensures t.totalAmount == SumValues(volumes) && t.existingAmount == 0.0 && t.IsRegularSample()
      ensures Valid() && name == old(name)
      ensures forall u :: u in old(Registered(sampleDict)) ==> u.master == old(u.master)
      ensures "" !in old(idTrialName) ==>
        r == Pass &&
        sampleDict == old(sampleDict)[finalName := Entry("", t)] &&
        sampleOrder == Appended(old(sampleOrder), finalName) &&
        idTrialName == old(idTrialName)["" := finalName] &&
        substanceDict == old(substanceDict) + target.Keys &&
        substanceTrialDict == old(substanceTrialDict)
      ensures old(BoundTo("")) ==> r == Fail(KeyError)
    {
      var amount := SumOf(volumes);
      t := new Trial(finalName, name, volumes, map[], target, amount, "", 0.0, false, false);
      r := GenerateTrial(t);
    }

    /** `design_concentration_advanced`: regenerates the substance table,
        searches for a plan (see `Design.Search`), adds the solvent and
        registers the mix as `"MIX_ADV_"` followed by the hash of the
        target's substances, which the caller computes and passes in as
        `hashText`.  The search over the table never raises; the design
        fails with `ValueError` when there is no non-solvent substance, no
        plan, or more volume than the total, and with `KeyError` when the
        registration does; when a plan is found, fits the total and the
        empty id is free, the design succeeds.  The table it builds stays
        stored as the holder table, and the ValueError paths change no
        registry. */
    method DesignConcentrationAdvanced(targetOrder: seq<string>, target: map<string, real>, totalVolume: real,
                                      minVolume: real, maxVolume: real, maxRetries: int,
                                      round2: real -> real, hashText: string)
      returns (r: Result<(string, map<string, real>)>)
      requires Valid() && Lists(targetOrder, target.Keys)
      modifies this
      ensures var concs := old(ConcsOf(sampleDict));
        var st := Design.Setting(HolderMap(old(sampleOrder), concs), concs, target, totalVolume,
                                 minVolume, maxVolume, maxRetries, round2);
        var found := Design.Search(st, targetOrder);
        var solvated := if found.Ok? then Design.Solvated(found.value, totalVolume, Design.SolventName(old(sampleOrder), concs))
                        else Err(ValueError);
        (found.Err? ==> r == Err(ValueError)) &&
        (found.Ok? && solvated.Err? ==> r == Err(ValueError)) &&
        (found.Ok? && solvated.Ok? && "" !in old(idTrialName) ==> r.Ok?) &&
        (r.Ok? ==> found.Ok? && solvated.Ok? && r.value == ("MIX_ADV_" + hashText, solvated.value)) &&
        (found.Err? || solvated.Err? ==>
           sampleDict == old(sampleDict) && sampleOrder == old(sampleOrder) &&
           idTrialName == old(idTrialName) && substanceDict == old(substanceDict)) &&
        (found.Err? || solvated.Err? || "" !in old(idTrialName) ==>
           substanceTrialDict == HolderMap(old(sampleOrder), concs))
      ensures r.Err? && r.fault != ValueError ==> "" in old(idTrialName)
      ensures r.Ok? && "" !in old(idTrialName) ==>
        r.value.0 in sampleDict && sampleDict[r.value.0].id == "" &&
        sampleDict[r.value.0].trial.composite == r.value.1 && sampleDict[r.value.0].trial.substanceConc == target &&
        sampleDict == old(sampleDict)[r.value.0 := sampleDict[r.value.0]] &&
        sampleOrder == Appended(old(sampleOrder), r.value.0) &&
        idTrialName == old(idTrialName)["" := r.value.0] &&
        substanceDict == old(substanceDict) + target.Keys
      ensures Valid() && name == old(name)
    {
      ghost var concs := ConcsOf(sampleDict);
      ghost var order := sampleOrder;
      var table := GenSubstanceTrialDict();
      assert ConcsOf(sampleDict) == concs;
      var st := Design.Setting(table, ConcsOf(sampleDict), target, totalVolume, minVolume, maxVolume, maxRetries, round2);
      HolderMapSound(order, st);
      Design.SearchSound(st, targetOrder);
      var found := Design.Search(st, targetOrder);
      if found.Err? {
        return Err(found.fault);
      }
      var finalVolumes := HandleSolvent(found.value, totalVolume);
      if finalVolumes.Err? {
        return Err(finalVolumes.fault);
      }
      var finalName := "MIX_ADV_" + hashText;
      var o, t := CreateFinalTrial(finalName, finalVolumes.value, target);
      if o.Fail? {
        return Err(o.fault);
      }
      r := Ok((finalName, finalVolumes.value));
    }

    /** One row of `stock_from_2d_array`. */
    method StockRow(n: string, conc: map<string, real>, id: string) returns (r: Outcome, t: Trial)
      requires Valid()
      modifies this
      ensures Valid() && name == old(name) && MadeStock(t, n, name, conc, id)
      ensures n in old(sampleDict) || id !in old(idTrialName) ==>
        r == Pass &&
        sampleDict == old(sampleDict)[n := Entry(if n in old(sampleDict) then old(sampleDict)[n].id else id, t)] &&
        sampleOrder == (if n in old(sampleDict) then old(sampleOrder) else old(sampleOrder) + [n]) &&
        idTrialName == (if n in old(sampleDict) then old(idTrialName) else old(idTrialName)[id := n]) &&
        substanceDict == old(substanceDict) + (if n in old(sampleDict) then {} else conc.Keys) &&
        substanceTrialDict == old(substanceTrialDict)
    {
      t := new Trial(n, name, map[], map[], conc, 0.0, id, 0.0, true, conc == map[]);
      if n in sampleDict {
        sampleDict := sampleDict[n := Entry(sampleDict[n].id, t)];
        r := Pass;
      } else {
        AppendedLists(sampleOrder, sampleDict.Keys, n);
        r := GenerateTrial(t);
      }
    }

    /** The substance tables after the first `k` rows, from `s0` and
        `t0`: the set has gained the rows' `NewSubstances`, the holder
        table is as it was. */
    ghost predicate Substanced(names: seq<string>, rows: map<string, map<string, real>>, k: nat,
                               d0: map<string, Entry>, s0: set<string>, t0: map<string, seq<string>>)
      requires k <= |names|
      reads this
    {
      substanceDict == s0 + NewSubstances(names, rows, k, d0.Keys) && substanceTrialDict == t0
    }

    /** The state of the loop of `stock_from_2d_array` after its first `k`
        rows, with `made` the samples made for them: the registry is
        well formed, each made sample is its row's stock and, when the ids
        are all new (`ok`), the registry follows `StockedUpTo` and the
        substance tables follow `Substanced`. */
    ghost predicate Stocking(names: seq<string>, rows: map<string, map<string, real>>, ids: seq<string>, k: nat,
                             ok: bool, d0: map<string, Entry>, order0: seq<string>, ids0: map<string, string>,
                             made: seq<Trial>, s0: set<string>, t0: map<string, seq<string>>)
      requires k <= |names| == |ids| && Lists(names, rows.Keys)
      reads this, set i | 0 <= i < |made| :: made[i]
    {
      Valid() && |made| == k && (forall i :: 0 <= i < k ==> MadeStock(made[i], names[i], name, rows[names[i]], ids[i])) &&
      (ok ==> FreshIds(ids, ids0) && StockedUpTo(names, ids, k, d0, order0, ids0, sampleDict, sampleOrder, idTrialName, made) &&
              Substanced(names, rows, k, d0, s0, t0))
    }

    /** The loop state after every row, with all-new ids, spelled out. */
    lemma StockingDone(names: seq<string>, rows: map<string, map<string, real>>, ids: seq<string>,
                       d0: map<string, Entry>, order0: seq<string>, ids0: map<string, string>,
                       made: seq<Trial>, s0: set<string>, t0: map<string, seq<string>>)
      requires |names| == |ids| && Lists(names, rows.Keys)
      requires Stocking(names, rows, ids, |names|, true, d0, order0, ids0, made, s0, t0)
      ensures Valid()
      ensures EntryIds(sampleDict) == StockedEntryIds(names, ids, |names|, EntryIds(d0))
      ensures sampleOrder == StockedOrder(names, ids, |names|, EntryIds(d0), order0)
      ensures idTrialName == StockedIdMap(names, ids, |names|, EntryIds(d0), ids0)
      ensures forall i :: 0 <= i < |names| ==>
        names[i] in sampleDict && MadeStock(sampleDict[names[i]].trial, names[i], name, rows[names[i]], ids[i])
      ensures forall x :: x in d0 && x !in names ==> x in sampleDict && sampleDict[x] == d0[x]
      ensures Substanced(names, rows, |names|, d0, s0, t0)
    {
    }

    /** One turn of the loop of `stock_from_2d_array`: `StockRow` for row
        `k` takes the loop state one row further; with all-new ids the
        turn passes. */
    method StockOne(names: seq<string>, rows: map<string, map<string, real>>, ids: seq<string>, k: nat,
                    ghost ok: bool, ghost d0: map<string, Entry>, ghost order0: seq<string>,
                    ghost ids0: map<string, string>, ghost made: seq<Trial>,
                    ghost s0: set<string>, ghost t0: map<string, seq<string>>) returns (o: Outcome, t: Trial)
      requires k < |names| == |ids| && Lists(names, rows.Keys)
      requires Stocking(names, rows, ids, k, ok, d0, order0, ids0, made, s0, t0)
      modifies this
      ensures name == old(name) && Stocking(names, rows, ids, k + 1, ok, d0, order0, ids0, made + [t], s0, t0)
      ensures ok ==> o == Pass
    {
      var n := names[k];
      ghost var d, order, idm, sd := sampleDict, sampleOrder, idTrialName, substanceDict;
      if ok {
        StockKnown(names, ids, k, EntryIds(d0));
        StockIdFree(names, ids, k, EntryIds(d0), ids0);
        assert n in d <==> n in d0;
      }
      o, t := StockRow(n, rows[n], ids[k]);
      if ok {
        StockedNext(names, ids, k, d0, order0, ids0, d, order, idm, made, t);
        NewSubstancesNext(names, rows, k, d0.Keys, s0, sd, substanceDict);
      }
    }

    /** `stock_from_2d_array`: one stock sample per row, with the row's
        concentrations (a solvent when the row is empty).  A name already
        registered has its object replaced in place, keeping the entry's
        id; a new name is registered with `generate_trial`, whose failure
        is raised again as `RuntimeError`.  With row names that are
        distinct (the keys of a dict) and ids that are all new, every row is
        stocked: the registry's ids, key order and id map become
        `StockedEntryIds`, `StockedOrder` and `StockedIdMap` of the old ones
        (whose meaning the `Stock...` lemmas spell out), each row's entry holds the
        sample `MadeStock` describes, and every other entry is kept. */
    method StockFrom2dArray(names: seq<string>, rows: map<string, map<string, real>>,
                            idArray: Option<seq<string>>, generated: seq<string>) returns (r: Outcome)
      requires Valid() && Lists(names, rows.Keys) && |generated| == |names|
      modifies this
      ensures Valid() && name == old(name)
      ensures r == Pass || r == Fail(RuntimeError)
      ensures var ids := RowIds(idArray, generated, false);
        FreshIds(ids, old(idTrialName)) ==>
        r == Pass &&
        EntryIds(sampleDict) == StockedEntryIds(names, ids, |names|, EntryIds(old(sampleDict))) &&
        sampleOrder == StockedOrder(names, ids, |names|, EntryIds(old(sampleDict)), old(sampleOrder)) &&
        idTrialName == StockedIdMap(names, ids, |names|, EntryIds(old(sampleDict)), old(idTrialName)) &&
        (forall i :: 0 <= i < |names| ==>
          names[i] in sampleDict && MadeStock(sampleDict[names[i]].trial, names[i], name, rows[names[i]], ids[i])) &&
        (forall x :: x in old(sampleDict) && x !in names ==> x in sampleDict && sampleDict[x] == old(sampleDict)[x]) &&
        Substanced(names, rows, |names|, old(sampleDict), old(substanceDict), old(substanceTrialDict))
    {
      var ids := RowIds(idArray, generated, false);
      ghost var d0, order0, ids0 := sampleDict, sampleOrder, idTrialName;
      ghost var s0, t0 := substanceDict, substanceTrialDict;
      ghost var ok := FreshIds(ids, ids0);
      ghost var made: seq<Trial> := [];
      for k := 0 to |names|
        invariant name == old(name) && Stocking(names, rows, ids, k, ok, d0, order0, ids0, made, s0, t0)
      {
        var o, t := StockOne(names, rows, ids, k, ok, d0, order0, ids0, made, s0, t0);
        if o.Fail? {
          return Fail(RuntimeError);
        }
        made := made + [t];
      }
      if ok {
        StockingDone(names, rows, ids, d0, order0, ids0, made, s0, t0);
      }
      r := Pass;
    }

    /** The registry seen as values. */
    function View(): Registry
      reads this, Registered(sampleDict)`name
    {
      Registry(SlotsOf(sampleDict), sampleOrder, idTrialName)
    }

    /** The registered names whose sample is a stock. */
    function StockNames(): (r: set<string>)
      reads this, Registered(sampleDict)`stock
      ensures forall k :: k in r <==> k in sampleDict && sampleDict[k].trial.stock
    {
      set k | k in sampleDict && sampleDict[k].trial.stock
    }

    /** One deletion of phase 0, field by field: the entry goes, then its
        id; either lookup raises `KeyError` when it misses. */
    method DropEntry(key: string) returns (r: Outcome)
      requires Valid()
      modifies this`sampleDict, this`sampleOrder, this`idTrialName
      ensures Valid()
      ensures key !in old(sampleDict) ==>
        r == Fail(KeyError) && sampleDict == old(sampleDict) && sampleOrder == old(sampleOrder) &&
        idTrialName == old(idTrialName)
      ensures key in old(sampleDict) ==>
        var id := old(sampleDict)[key].id;
        sampleDict == old(sampleDict) - {key} && sampleOrder == Dropped(old(sampleOrder), key) &&
        (id in old(idTrialName) ==> r == Pass && idTrialName == old(idTrialName) - {id}) &&
        (id !in old(idTrialName) ==> r == Fail(KeyError) && idTrialName == old(idTrialName))
    {
      if key !in sampleDict {
        return Fail(KeyError);
      }
      var id := sampleDict[key].id;
      DroppedLists(sampleOrder, sampleDict.Keys, key);
      sampleDict := sampleDict - {key};
      sampleOrder := Dropped(sampleOrder, key);
      if id !in idTrialName {
        return Fail(KeyError);
      }
      idTrialName := idTrialName - {id};
      r := Pass;
    }

    /** One deletion of phase 0, on the registry seen as values (see
        `Unbind`). */
    method ReleaseEntry(key: string) returns (r: Outcome)
      requires Valid()
      modifies this`sampleDict, this`sampleOrder, this`idTrialName
      ensures Valid()
      ensures Step(r, View()) == Unbind(old(View()), key)
      ensures Registered(sampleDict) <= old(Registered(sampleDict))
    {
      RegisteredWithout(sampleDict, key);
      if key in sampleDict {
        UnbindEntries(sampleDict, sampleOrder, idTrialName, key);
      }
      label Pre:
      r := DropEntry(key);
      SlotsKept@Pre(sampleDict);
    }

    /** Deletes, one by one, the entry and then the id of each name of
        `doomed` (see `Clear`). */
    method ClearNames(doomed: seq<string>) returns (r: Outcome)
      requires Valid()
      modifies this`sampleDict, this`sampleOrder, this`idTrialName
      ensures Step(r, View()) == Clear(old(View()), doomed)
      ensures Valid()
      ensures Registered(sampleDict) <= old(Registered(sampleDict))
    {
      ghost var goal := Clear(View(), doomed);
      ghost var v := View();
      for i := 0 to |doomed|
        invariant Valid()
        invariant v == View() && Clear(v, doomed[i..]) == goal
        invariant Registered(sampleDict) <= old(Registered(sampleDict))
      {
        ghost var st := Unbind(v, doomed[i]);
        ClearHead(v, doomed[i..]);
        assert doomed[i..][1..] == doomed[i + 1..];
        r := ReleaseEntry(doomed[i]);
        assert Step(r, View()) == st;
        v := st.reg;
        if r.Fail? {
          return;
        }
      }
      assert doomed[|doomed|..] == [];
      r := Pass;
    }

    /** Phase 0 of `new_exp_from_2d_array`: deletes, one by one, the entry
        and then the id of each name `Condemned` collects, which raises
        `KeyError` (after the entry is gone) when the id is not bound.  The
        effect is `Clear` applied to the names `Doomed` picks. */
    method ClearSheet(rows: set<string>) returns (r: Outcome)
      requires Valid()
      modifies this`sampleDict, this`sampleOrder, this`idTrialName
      ensures Step(r, View()) == Clear(old(View()), Doomed(old(sampleOrder), old(StockNames()), rows))
      ensures Valid()
      ensures Registered(sampleDict) <= old(Registered(sampleDict)) && BusyWithin(old(Busy()))
    {
      var stocks, order := StockNames(), sampleOrder;
      ghost var v0 := View();
      var doomed := Condemned(order, stocks, rows);
      assert View() == v0;
      r := ClearNames(doomed);
    }

    /** One row of phase 1 of `new_exp_from_2d_array` (see `PlaceRow`):
        when the row's id is bound, the sample registered under the id's
        name is renamed with `change_trial_name` given the object; otherwise
        a new regular sample with the row's name and id and nothing else
        is registered with `generate_trial`. */
    method PlaceEntry(n: string, id: string, ghost busy: set<Trial>) returns (r: Outcome)
      requires Valid() && BusyWithin(busy)
      modifies this
      ensures Step(r, View()) == PlaceRow(old(View()), n, id)
      ensures Valid() && name == old(name)
      ensures substanceDict == old(substanceDict) && substanceTrialDict == old(substanceTrialDict)
      ensures forall o :: o in Registered(sampleDict) ==> o in old(Registered(sampleDict)) || (fresh(o) && o.composite == map[])
      ensures BusyWithin(busy)
    {
      if id in idTrialName {
        r := RenameBound(n, id);
      } else {
        r := CreateRow(n, id);
      }
      PlacedKept(busy);
    }

    /** `change_trial_name` given the object `t`: the entry under the
        name `t` carries moves to `newName`. */
    method RenameObject(newName: string, t: Trial) returns (r: Outcome)
      requires Valid()
      modifies this
      ensures Valid() && name == old(name) && idTrialName == old(idTrialName)
      ensures substanceDict == old(substanceDict) && substanceTrialDict == old(substanceTrialDict)
      ensures t.name !in old(sampleDict) ==>
        r == Fail(KeyError) && sampleDict == old(sampleDict) && sampleOrder == old(sampleOrder)
      ensures t.name in old(sampleDict) ==>
        r == Pass && sampleDict == Moved(old(sampleDict), t.name, newName) &&
        sampleOrder == Appended(Dropped(old(sampleOrder), t.name), newName)
    {
      r := ChangeTrialName(newName, "", "", Some(t));
    }

    /** The rename branch of `PlaceEntry`. */
    method RenameBound(n: string, id: string) returns (r: Outcome)
      requires Valid() && id in idTrialName
      modifies this
      ensures Step(r, View()) == PlaceRow(old(View()), n, id)
      ensures Valid() && name == old(name)
      ensures substanceDict == old(substanceDict) && substanceTrialDict == old(substanceTrialDict)
      ensures forall o :: o in Registered(sampleDict) ==> o in old(Registered(sampleDict)) || (fresh(o) && o.composite == map[])
    {
      var tn := idTrialName[id];
      if tn !in sampleDict {
        return Fail(KeyError);
      }
      var t := sampleDict[tn].trial;
      ghost var v := View();
      ghost var d := sampleDict;
      assert v.slots[tn].objName == t.name;
      r := RenameObject(n, t);
      assert SlotsOf(d) == v.slots;
      if r == Pass {
        SlotsMoved(d, t.name, n);
        RegisteredMoved(d, t.name, n);
      } else {
        assert View() == v;
      }
    }

    /** `generate_trial` on a sample whose id is not bound yet. */
    method RegisterFresh(t: Trial) returns (r: Outcome)
      requires Valid() && t.id !in idTrialName
      modifies this
      ensures r == Pass && Valid() && name == old(name)
      ensures sampleDict == old(sampleDict)[t.name := Entry(t.id, t)]
      ensures sampleOrder == Appended(old(sampleOrder), t.name)
      ensures idTrialName == old(idTrialName)[t.id := t.name]
      ensures substanceDict == old(substanceDict) + t.substanceConc.Keys
      ensures substanceTrialDict == old(substanceTrialDict)
    {
      r := GenerateTrial(t);
    }

    /** The registration branch of `PlaceEntry`. */
    method CreateRow(n: string, id: string) returns (r: Outcome)
      requires Valid() && id !in idTrialName
      modifies this
      ensures Step(r, View()) == PlaceRow(old(View()), n, id)
      ensures Valid() && name == old(name)
      ensures substanceDict == old(substanceDict) && substanceTrialDict == old(substanceTrialDict)
      ensures forall o :: o in Registered(sampleDict) ==> o in old(Registered(sampleDict)) || (fresh(o) && o.composite == map[])
    {
      ghost var v := View();
      ghost var d := sampleDict;
      var t := new Trial(n, name, map[], map[], map[], 0.0, id, 0.0, false, false);
      r := RegisterFresh(t);
      assert SlotsOf(d) == v.slots;
      SlotsSet(d, n, Entry(id, t));
      RegisteredSet(d, n, Entry(id, t));
      assert SlotsOf(sampleDict) == v.slots[n := Slot(id, n)];
      assert sampleOrder == Appended(v.order, n) && idTrialName == v.idMap[id := n];
    }

    /** Phase 1 of `new_exp_from_2d_array`: every row in turn (see
        `Place`); the first failure is raised again as `RuntimeError`. */
    method PlaceSheet(names: seq<string>, ids: seq<string>, ghost busy: set<Trial>) returns (r: Outcome)
      requires Valid() && |names| == |ids| && BusyWithin(busy)
      modifies this
      ensures var st := Place(old(View()), names, ids);
        View() == st.reg && (r == Pass <==> st.outcome == Pass) && (r.Fail? ==> r == Fail(RuntimeError))
      ensures Valid() && name == old(name)
      ensures substanceDict == old(substanceDict) && substanceTrialDict == old(substanceTrialDict)
      ensures forall o :: o in Registered(sampleDict) ==> o in old(Registered(sampleDict)) || (fresh(o) && o.composite == map[])
      ensures BusyWithin(busy)
    {
      ghost var goal := Place(View(), names, ids);
      ghost var v := View();
      for i := 0 to |names|
        invariant Valid() && name == old(name)
        invariant substanceDict == old(substanceDict) && substanceTrialDict == old(substanceTrialDict)
        invariant v == View() && Place(v, names[i..], ids[i..]) == goal
        invariant forall o :: o in Registered(sampleDict) ==> o in old(Registered(sampleDict)) || (fresh(o) && o.composite == map[])
        invariant BusyWithin(busy)
      {
        ghost var st := PlaceRow(v, names[i], ids[i]);
        assert names[i..][1..] == names[i + 1..] && ids[i..][1..] == ids[i + 1..];
        r := PlaceEntry(names[i], ids[i], busy);
        assert Step(r, View()) == st;
        v := st.reg;
        if r.Fail? {
          return Fail(RuntimeError);
        }
      }
      assert names[|names|..] == [] && ids[|ids|..] == [];
      r := Pass;
    }

    /** The sample phase 2 looks up for a row id with `get_trial(trial_id=id)`,
        when the lookup finds one. */
    function Subject(id: string): (r: Option<Trial>)
      reads this
      ensures r.Some? <==> GetTrial("", id).Ok? && GetTrial("", id).value.Some?
      ensures r.Some? ==> r.value in Registered(sampleDict)
    {
      if id != "" && id in idTrialName && idTrialName[id] in sampleDict
      then Some(sampleDict[idTrialName[id]].trial) else None
    }

    /** Every component of `subject` is registered and lists `subject`
        among its users. */
    predicate Mirrored(subject: Trial)
      reads this, subject, Registered(sampleDict)`master
    {
      forall k :: k in subject.composite ==> k in sampleDict && subject.name in sampleDict[k].trial.master
    }

    /** The first loop of phase 2: every component of the subject is
        removed in full while its composite is being iterated over.  A
        successful removal deletes the key, so the iteration then raises
        `RuntimeError`; only an empty composite gets through.  Which
        component goes first is left open. */
    method TearDown(subject: Trial) returns (r: Outcome)
      requires subject in Registered(sampleDict)
      modifies Registered(sampleDict)`composite, Registered(sampleDict)`master,
               Registered(sampleDict)`existingAmount
      ensures old(subject.composite) == map[] ==> r == Pass && subject.composite == map[]
      ensures old(subject.composite) != map[] ==> r == Fail(RuntimeError) || r == Fail(KeyError)
      ensures old(subject.composite) != map[] && old(Mirrored(subject)) ==> r == Fail(RuntimeError)
      ensures forall o :: o in Registered(sampleDict) && o != subject ==> o.composite == old(o.composite)
    {
      if subject.composite == map[] {
        return Pass;
      }
      var k :| k in subject.composite;
      r := subject.RemoveFromComposite(k, Unlimited, sampleDict);
      if r == Pass {
        r := Fail(RuntimeError);
      }
    }

    /** The second loop of phase 2 on a subject with an empty composite:
        each numeric component is added with `regardless_of_negative_amount`
        set; a component that is not registered raises `ValueError`, and
        the components before it stay added. */
    method AddParts(subject: Trial, parts: seq<Part>) returns (r: Outcome)
      requires subject in Registered(sampleDict) && subject.composite == map[] && DistinctSources(parts)
      modifies Registered(sampleDict)`composite, Registered(sampleDict)`master,
               Registered(sampleDict)`existingAmount
      ensures r == Pass || r == Fail(ValueError)
      ensures r == Pass <==> !Unknown(parts, sampleDict.Keys)
      ensures r == Pass ==> subject.composite == Numbers(parts)
      ensures forall o :: o in Registered(sampleDict) && o != subject ==> o.composite == old(o.composite)
    {
      for k := 0 to |parts|
        invariant subject.composite == Numbers(parts[..k])
        invariant !Unknown(parts[..k], sampleDict.Keys)
        invariant forall o :: o in Registered(sampleDict) && o != subject ==> o.composite == old(o.composite)
      {
        var p := parts[k];
        NumbersNext(parts, k);
        if p.amount.Some? {
          if p.source !in sampleDict {
            assert parts[k].amount.Some? && parts[k].source !in sampleDict.Keys;
            return Fail(ValueError);
          }
          NumbersMisses(parts, k);
          r := subject.AddToComposite(p.source, p.amount.value, sampleDict, true);
          assert r == Pass;
        }
        UnknownNext(parts, k, sampleDict.Keys);
      }
      assert parts[..|parts|] == parts;
      r := Pass;
    }

    /** Phase 2 for one row: the row's sample is looked up by id (a failed
        lookup raises `ValueError`; an empty id finds nothing, and reading
        the composite of nothing raises `AttributeError`), torn down, and
        linked to the row's components.  Only the row's sample changes its
        composite. */
    method LinkRow(id: string, parts: seq<Part>) returns (r: Outcome)
      requires DistinctSources(parts)
      modifies Registered(sampleDict)`composite, Registered(sampleDict)`master,
               Registered(sampleDict)`existingAmount
      ensures Subject(id).None? ==> r == (if id == "" then Fail(AttributeError) else Fail(ValueError))
      ensures r == Pass <==>
        Subject(id).Some? && old(Subject(id).value.composite) == map[] && !Unknown(parts, sampleDict.Keys)
      ensures r == Pass ==> Subject(id).value.composite == Numbers(parts)
      ensures r == Pass || r == Fail(ValueError) || r == Fail(AttributeError) ||
              r == Fail(RuntimeError) || r == Fail(KeyError)
      ensures forall o :: o in Registered(sampleDict) && Subject(id) != Some(o) ==> o.composite == old(o.composite)
    {
      var found := GetTrial("", id);
      if found.Err? {
        return Fail(ValueError);
      }
      if found.value.None? {
        return Fail(AttributeError);
      }
      var subject := found.value.value;
      r := TearDown(subject);
      if r.Fail? {
        return;
      }
      r := AddParts(subject, parts);
    }

    /** No row after `k` and before `n` looks up the same sample as row
        `k`. */
    predicate LastLink(ids: seq<string>, k: int, n: int)
      requires 0 <= k < n <= |ids|
      reads this
    {
      forall j :: k < j < n ==> Subject(ids[j]) != Subject(ids[k])
    }

    /** Phase 2 can link every row: each row's id finds a sample with an
        empty composite, no two rows find the same sample, and every
        numeric component of every row is registered. */
    ghost predicate Linkable(names: seq<string>, ids: seq<string>, rows: map<string, seq<Part>>)
      requires |names| == |ids| && forall k :: 0 <= k < |names| ==> names[k] in rows
      reads this, Registered(sampleDict)`composite
    {
      (forall k :: 0 <= k < |ids| ==>
         Subject(ids[k]).Some? && Subject(ids[k]).value.composite == map[] &&
         !Unknown(rows[names[k]], sampleDict.Keys)) &&
      (forall j, k :: 0 <= j < k < |ids| ==> Subject(ids[j]) != Subject(ids[k]))
    }

    /** The registered samples whose composite is not empty. */
    function Busy(): (b: set<Trial>)
      reads this, Registered(sampleDict)
      ensures b <= Registered(sampleDict)
    {
      set o | o in Registered(sampleDict) && o.composite != map[]
    }

    /** Every registered sample with a non-empty composite is in `busy`. */
    predicate BusyWithin(busy: set<Trial>)
      reads this, Registered(sampleDict)
    {
      forall o :: o in Registered(sampleDict) && o.composite != map[] ==> o in busy
    }

    /** `Linkable` as seen from a registry whose samples with a non-empty
        composite were `busy`: every row finds a sample outside `busy`, no
        two rows find the same sample, and every numeric component is
        registered. */
    predicate LinkReady(names: seq<string>, ids: seq<string>, rows: map<string, seq<Part>>, busy: set<Trial>)
      requires |names| == |ids| && forall k :: 0 <= k < |names| ==> names[k] in rows
      reads this
    {
      (forall k :: 0 <= k < |ids| ==>
         Subject(ids[k]).Some? && Subject(ids[k]).value !in busy && !Unknown(rows[names[k]], sampleDict.Keys)) &&
      (forall j, k :: 0 <= j < k < |ids| ==> Subject(ids[j]) != Subject(ids[k]))
    }

    /** A step that leaves the composites of the samples registered before
        alone and registers only new samples with empty composites keeps
        `BusyWithin`. */
    twostate lemma PlacedKept(busy: set<Trial>)
      requires old(BusyWithin(busy))
      requires forall o :: o in Registered(sampleDict) ==>
                 o in old(Registered(sampleDict)) || (fresh(o) && o.composite == map[])
      requires forall o :: o in old(Registered(sampleDict)) ==> o.composite == old(o.composite)
      ensures BusyWithin(busy)
    {
    }

    /** Under `BusyWithin(busy)`, `LinkReady` gives `Linkable`. */
    lemma ReadyLinkable(names: seq<string>, ids: seq<string>, rows: map<string, seq<Part>>, busy: set<Trial>)
      requires |names| == |ids| && forall k :: 0 <= k < |names| ==> names[k] in rows
      requires BusyWithin(busy)
      ensures LinkReady(names, ids, rows, busy) ==> Linkable(names, ids, rows)
    {
    }

    /** What a passing phase 2 leaves: every row found its sample and every
        numeric component is registered, and the last row naming a sample
        decided that sample's composite. */
    ghost predicate Linked(names: seq<string>, ids: seq<string>, rows: map<string, seq<Part>>)
      requires |names| == |ids| && forall k :: 0 <= k < |names| ==> names[k] in rows
      reads this, Registered(sampleDict)`composite
    {
      (forall k :: 0 <= k < |ids| ==> Subject(ids[k]).Some? && !Unknown(rows[names[k]], sampleDict.Keys)) &&
      (forall k :: 0 <= k < |ids| && LastLink(ids, k, |ids|) ==>
         Subject(ids[k]).value.composite == Numbers(rows[names[k]]))
    }

    /** Phase 2 after its first `i` rows: those rows found their samples
        and have only registered components, the last of them naming a
        sample decided its composite and, when the sheet is `linkable`,
        the rows still to come find samples with empty composites. */
    ghost predicate Linking(names: seq<string>, ids: seq<string>, rows: map<string, seq<Part>>, i: nat, linkable: bool)
      requires i <= |names| == |ids| && forall k :: 0 <= k < |names| ==> names[k] in rows
      reads this, Registered(sampleDict)`composite
    {
      (linkable ==> forall k :: i <= k < |ids| ==> Subject(ids[k]).Some? && Subject(ids[k]).value.composite == map[]) &&
      (forall k :: 0 <= k < i ==> Subject(ids[k]).Some? && !Unknown(rows[names[k]], sampleDict.Keys)) &&
      (forall k :: 0 <= k < i && LastLink(ids, k, i) ==>
         Subject(ids[k]).Some? && Subject(ids[k]).value.composite == Numbers(rows[names[k]]))
    }

    /** Phase 2 for row `i`: `LinkRow` takes `Linking` one row further
        when it passes, and it passes on a `LinkReady` sheet. */
    method LinkOne(names: seq<string>, ids: seq<string>, rows: map<string, seq<Part>>, i: nat,
                   ghost linkable: bool, ghost busy: set<Trial>) returns (r: Outcome)
      requires i < |names| == |ids|
      requires forall k :: 0 <= k < |names| ==> names[k] in rows && DistinctSources(rows[names[k]])
      requires linkable ==> LinkReady(names, ids, rows, busy)
      requires Linking(names, ids, rows, i, linkable)
      modifies Registered(sampleDict)`composite, Registered(sampleDict)`master,
               Registered(sampleDict)`existingAmount
      ensures r == Pass || r == Fail(ValueError) || r == Fail(AttributeError) ||
              r == Fail(RuntimeError) || r == Fail(KeyError)
      ensures linkable ==> r == Pass
      ensures r == Pass ==> Linking(names, ids, rows, i + 1, linkable)
    {
      r := LinkRow(ids[i], rows[names[i]]);
      if r == Pass {
        forall k | 0 <= k < i + 1 && LastLink(ids, k, i + 1)
          ensures Subject(ids[k]).Some? && Subject(ids[k]).value.composite == Numbers(rows[names[k]])
        {
          if k < i {
            assert LastLink(ids, k, i) && Subject(ids[i]) != Subject(ids[k]);
            assert old(Subject(ids[k]).value.composite) == Numbers(rows[names[k]]);
          }
        }
        if linkable {
          forall k | i + 1 <= k < |ids|
            ensures Subject(ids[k]).Some? && Subject(ids[k]).value.composite == map[]
          {
            assert Subject(ids[i]) != Subject(ids[k]);
            assert old(Subject(ids[k]).value.composite) == map[];
          }
        }
      }
    }

    /** Phase 2 of `new_exp_from_2d_array`: every row in turn, stopping at
        the first failure.  With `busy` holding every registered sample
        whose composite is not empty, it passes whenever the sheet is
        `LinkReady`: distinct samples, none of them busy, all components
        known.  On success every row found its sample and every numeric
        component is registered, and the last row naming a sample decides
        that sample's composite. */
    method LinkSheet(names: seq<string>, ids: seq<string>, rows: map<string, seq<Part>>, ghost busy: set<Trial>)
      returns (r: Outcome)
      requires |names| == |ids|
      requires forall k :: 0 <= k < |names| ==> names[k] in rows && DistinctSources(rows[names[k]])
      requires BusyWithin(busy)
      modifies Registered(sampleDict)`composite, Registered(sampleDict)`master,
               Registered(sampleDict)`existingAmount
      ensures r == Pass || r == Fail(ValueError) || r == Fail(AttributeError) ||
              r == Fail(RuntimeError) || r == Fail(KeyError)
      ensures LinkReady(names, ids, rows, busy) ==> r == Pass
      ensures r == Pass ==> Linked(names, ids, rows)
    {
      ReadyLinkable(names, ids, rows, busy);
      ghost var linkable := LinkReady(names, ids, rows, busy);
      for i := 0 to |ids|
        invariant Linking(names, ids, rows, i, linkable)
      {
        r := LinkOne(names, ids, rows, i, linkable, busy);
        if r.Fail? {
          return;
        }
      }
      r := Pass;
    }

    /** Phases 0 and 1 of `new_exp_from_2d_array` (see `ClearSheet` and
        `PlaceSheet`): the registry the sheet with rows `rows` leaves,
        before any link, is `Rebuilt`.  Phase 1 creates samples with empty
        composites and neither phase touches a composite, so no sample
        gains one. */
    method Rebuild(names: seq<string>, ids: seq<string>, rows: map<string, seq<Part>>) returns (r: Outcome)
      requires Valid() && |names| == |ids| && forall k :: 0 <= k < |names| ==> names[k] in rows
      modifies this
      ensures Valid() && name == old(name)
      ensures substanceDict == old(substanceDict) && substanceTrialDict == old(substanceTrialDict)
      ensures Step(r, View()) == Rebuilt(old(View()), old(StockNames()), rows.Keys, names, ids)
      ensures forall o :: o in Registered(sampleDict) ==> o in old(Registered(sampleDict)) || fresh(o)
      ensures BusyWithin(old(Busy()))
    {
      ghost var busy := Busy();
      r := ClearSheet(rows.Keys);
      if r.Fail? {
        return;
      }
      r := PlaceSheet(names, ids, busy);
    }

    /** `new_exp_from_2d_array`: rebuilds the registry from a sheet whose
        rows are `names` (the keys of the outer dict, in order), each with
        its components `rows[n]`.  An empty sheet changes nothing.  The row
        ids are `RowIds`, with `generated` standing for the serial numbers
        drawn when the given ids are missing, all blank or of the wrong
        length.  Phase 0 (`ClearSheet`), phase 1 (`PlaceSheet`) and phase 2
        (`LinkSheet`) follow each other, and the first failure ends the
        call: a failure of phase 1 is raised again as `RuntimeError`. */
    method NewExpFrom2dArray(names: seq<string>, rows: map<string, seq<Part>>, idArray: Option<seq<string>>,
                             generated: seq<string>) returns (r: Outcome)
      requires Valid() && Lists(names, rows.Keys) && |generated| == |names|
      requires forall n :: n in rows ==> DistinctSources(rows[n])
      modifies this, Registered(sampleDict)`composite, Registered(sampleDict)`master,
               Registered(sampleDict)`existingAmount
      ensures Valid() && name == old(name)
      ensures substanceDict == old(substanceDict) && substanceTrialDict == old(substanceTrialDict)
      ensures names == [] ==> r == Pass && View() == old(View())
      ensures names != [] ==>
        var ids := RowIds(idArray, generated, true);
        var st := Rebuilt(old(View()), old(StockNames()), rows.Keys, names, ids);
        View() == st.reg && (st.outcome.Fail? ==> r == st.outcome) &&
        (st.outcome == Pass && LinkReady(names, ids, rows, old(Busy())) ==> r == Pass)
      ensures r == Pass || r == Fail(KeyError) || r == Fail(RuntimeError) || r == Fail(ValueError) ||
              r == Fail(AttributeError)
      ensures r == Pass ==> Linked(names, RowIds(idArray, generated, true), rows)
    {
      if names == [] {
        return Pass;
      }
      ghost var busy := Busy();
      var ids := RowIds(idArray, generated, true);
      r := Rebuild(names, ids, rows);
      if r.Fail? {
        return;
      }
      label Linking:
      r := LinkSheet(names, ids, rows, busy);
      SlotsKept@Linking(sampleDict);
    }
  }
}
