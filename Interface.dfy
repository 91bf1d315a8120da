/** The front end's registry of experiments: a dict from experiment name
    to the pair `[id, handle]` and, beside it, a dict from id back to name
    (interface.py:6-16, 46-70, 391-403). */
module Interface {
  import opened Outcomes
  import Experiments

  /** What the registry stores for an experiment: the address string the
      front end hands to `add_experiment`, or an `Experiment` object created
      by `_update_experiment_info`. */
  datatype Handle = Address(addr: string) | Instance(exp: Experiments.Experiment)

  /** The pair `[id, handle]` kept under an experiment's name. */
  datatype ExpEntry = ExpEntry(id: string, handle: Handle)

  /** The two indexes agree: every id names a registered experiment whose
      entry carries that id, and every entry's id leads back to its name. */
  predicate Paired(exps: map<string, ExpEntry>, ids: map<string, string>)
  {
    (forall i :: i in ids ==> ids[i] in exps && exps[ids[i]].id == i) &&
    (forall n :: n in exps ==> exps[n].id in ids && ids[exps[n].id] == n)
  }

  /** Binding `name` to `id` neither strands an older id of `name` nor an
      older name of `id`. */
  predicate Fits(exps: map<string, ExpEntry>, ids: map<string, string>, name: string, id: string)
  {
    (name !in exps || exps[name].id == id) && (id !in ids || ids[id] == name)
  }

  /** `add_experiment` keeps the indexes paired exactly when the new
      binding fits them: re-adding a name under a new id leaves the old id
      pointing at it, and re-using an id leaves its old name pointing at
      the id. */
  lemma AddKeepsPaired(exps: map<string, ExpEntry>, ids: map<string, string>, name: string, id: string, h: Handle)
    requires Paired(exps, ids)
    ensures Paired(exps[name := ExpEntry(id, h)], ids[id := name]) <==> Fits(exps, ids, name, id)
  {
    var exps', ids' := exps[name := ExpEntry(id, h)], ids[id := name];
    if name in exps && exps[name].id != id {
      var old_id := exps[name].id;
      assert old_id in ids' && ids'[old_id] == name && exps'[name].id != old_id;
    }
    if id in ids && ids[id] != name {
      var old_name := ids[id];
      assert old_name in exps' && exps'[old_name].id == id && ids'[id] != old_name;
    }
  }

  /** Deleting an experiment's name together with its id keeps the indexes
      paired and leaves neither key behind. */
  lemma RemoveKeepsPaired(exps: map<string, ExpEntry>, ids: map<string, string>, name: string)
    requires Paired(exps, ids) && name in exps
    ensures Paired(exps - {name}, ids - {exps[name].id})
    ensures name !in exps - {name} && exps[name].id !in ids - {exps[name].id}
  {
    var id := exps[name].id;
    forall i | i in ids - {id}
      ensures ids[i] in exps - {name}
    {
      assert ids[i] != name;
    }
  }

  /** Moving the entry for `rootId` from its prior name to `name` keeps the
      indexes paired exactly when `name` is the prior name or is free;
      either way `name` is afterwards the only name whose entry carries
      `rootId`. */
  lemma MoveKeepsPaired(exps: map<string, ExpEntry>, ids: map<string, string>, rootId: string, name: string)
    requires Paired(exps, ids) && rootId in ids
    ensures var prior := ids[rootId];
      var exps' := (exps - {prior})[name := exps[prior]];
      (forall n :: n in exps' ==> (exps'[n].id == rootId <==> n == name)) &&
      (Paired(exps', ids[rootId := name]) <==> name == prior || name !in exps)
  {
    var prior := ids[rootId];
    var exps' := (exps - {prior})[name := exps[prior]];
    var ids' := ids[rootId := name];
    forall n | n in exps'
      ensures exps'[n].id == rootId <==> n == name
    {
      if n != name {
        assert n != prior && exps[n].id in ids && ids[exps[n].id] == n;
      }
    }
    if name != prior && name in exps {
      var stale := exps[name].id;
      assert stale != rootId;
      assert stale in ids' && ids'[stale] == name && exps'[name].id != stale;
    }
    if name == prior || name !in exps {
      forall i | i in ids'
        ensures ids'[i] in exps' && exps'[ids'[i]].id == i
      {
        if i != rootId {
          assert ids[i] != prior && ids[i] != name;
        }
      }
      forall n | n in exps'
        ensures exps'[n].id in ids' && ids'[exps'[n].id] == n
      {
        if n != name {
          assert n != prior && exps[n].id != rootId;
        }
      }
    }
  }

  class ChemInterface {
    var dictOfExperiment: map<string, ExpEntry>
    var idExpName: map<string, string>

    predicate Valid()
      reads this
    {
      Paired(dictOfExperiment, idExpName)
    }

    /** An interface with no experiments. */
    constructor ()
      ensures dictOfExperiment == map[] && idExpName == map[] && Valid()
    {
      dictOfExperiment := map[];
      idExpName := map[];
    }

    /** `add_experiment`: binds the name to `[id, address]` and the id to
        the name, overwriting whatever either key held. */
    method AddExperiment(expName: string, expId: string, address: Handle)
      modifies this
      ensures dictOfExperiment == old(dictOfExperiment)[expName := ExpEntry(expId, address)]
      ensures idExpName == old(idExpName)[expId := expName]
      ensures old(Valid()) ==> (Valid() <==> Fits(old(dictOfExperiment), old(idExpName), expName, expId))
    {
      if Valid() {
        AddKeepsPaired(dictOfExperiment, idExpName, expName, expId, address);
      }
      dictOfExperiment := dictOfExperiment[expName := ExpEntry(expId, address)];
      idExpName := idExpName[expId := expName];
    }

    /** `remove_experiment`: by id when one is given (the empty string
        stands for a falsy argument), otherwise by name; an unknown key is
        a no-op.  When the two indexes disagree the second `del` raises
        `KeyError`: by id it fires before anything is deleted, by name
        after the name is gone. */
    method RemoveExperiment(expId: string, expName: string) returns (r: Outcome)
      modifies this
      ensures expId != "" && expId in old(idExpName) && old(idExpName)[expId] in old(dictOfExperiment) ==>
        r == Pass && dictOfExperiment == old(dictOfExperiment) - {old(idExpName)[expId]} &&
        idExpName == old(idExpName) - {expId}
      ensures expId != "" && expId in old(idExpName) && old(idExpName)[expId] !in old(dictOfExperiment) ==>
        r == Fail(KeyError) && unchanged(this)
      ensures expId == "" && expName != "" && expName in old(dictOfExperiment) ==>
        dictOfExperiment == old(dictOfExperiment) - {expName} &&
        (var id := old(dictOfExperiment)[expName].id;
         (id in old(idExpName) ==> r == Pass && idExpName == old(idExpName) - {id}) &&
         (id !in old(idExpName) ==> r == Fail(KeyError) && idExpName == old(idExpName)))
      ensures (expId != "" && expId !in old(idExpName)) || (expId == "" && (expName == "" || expName !in old(dictOfExperiment))) ==>
        r == Pass && unchanged(this)
      ensures old(Valid()) ==> r == Pass && Valid()
    {
      if expId != "" {
        if expId in idExpName {
          var name := idExpName[expId];
          if name !in dictOfExperiment {
            return Fail(KeyError);
          }
          if Valid() {
            RemoveKeepsPaired(dictOfExperiment, idExpName, name);
          }
          dictOfExperiment := dictOfExperiment - {name};
          idExpName := idExpName - {expId};
        }
      } else if expName != "" {
        if expName in dictOfExperiment {
          var id := dictOfExperiment[expName].id;
          if Valid() {
            RemoveKeepsPaired(dictOfExperiment, idExpName, expName);
          }
          dictOfExperiment := dictOfExperiment - {expName};
          if id !in idExpName {
            return Fail(KeyError);
          }
          idExpName := idExpName - {id};
        }
      }
      return Pass;
    }

    /** `_update_experiment_info`: an unknown `rootId` gets a fresh, empty
        experiment registered under the given name; a known one has its
        entry moved from the prior name to the given name.  Returns the
        experiment stored under the name.  `serial` is the random table id
        an `Experiment` draws when `rootId` is falsy. */
    method UpdateExperimentInfo(nameOfExp: string, rootId: string, serial: string) returns (r: Result<Handle>)
      modifies this
      ensures rootId !in old(idExpName) ==>
        r.Ok? && r.value.Instance? && fresh(r.value.exp) &&
        r.value.exp.name == nameOfExp && r.value.exp.tableId == (if rootId != "" then rootId else serial) &&
        r.value.exp.sampleDict == map[] &&
        dictOfExperiment == old(dictOfExperiment)[nameOfExp := ExpEntry(rootId, r.value)] &&
        idExpName == old(idExpName)[rootId := nameOfExp]
      ensures rootId in old(idExpName) && old(idExpName)[rootId] !in old(dictOfExperiment) ==>
        r == Err(KeyError) && unchanged(this)
      ensures rootId in old(idExpName) && old(idExpName)[rootId] in old(dictOfExperiment) ==>
        var prior := old(idExpName)[rootId];
        r == Ok(old(dictOfExperiment)[prior].handle) &&
        dictOfExperiment == (old(dictOfExperiment) - {prior})[nameOfExp := old(dictOfExperiment)[prior]] &&
        idExpName == old(idExpName)[rootId := nameOfExp]
      ensures old(Valid()) && rootId in old(idExpName) ==>
        r.Ok? && forall n :: n in dictOfExperiment ==> (dictOfExperiment[n].id == rootId <==> n == nameOfExp)
    {
      if rootId !in idExpName {
        var exp := new Experiments.Experiment(nameOfExp, if rootId != "" then rootId else serial);
        dictOfExperiment := dictOfExperiment[nameOfExp := ExpEntry(rootId, Instance(exp))];
        idExpName := idExpName[rootId := nameOfExp];
      } else {
        var prior := idExpName[rootId];
        if prior !in dictOfExperiment {
          return Err(KeyError);
        }
        if Valid() {
          MoveKeepsPaired(dictOfExperiment, idExpName, rootId, nameOfExp);
        }
        var entry := dictOfExperiment[prior];
        idExpName := idExpName - {rootId};
        dictOfExperiment := dictOfExperiment - {prior};
        idExpName := idExpName[rootId := nameOfExp];
        dictOfExperiment := dictOfExperiment[nameOfExp := entry];
      }
      return Ok(dictOfExperiment[nameOfExp].handle);
    }
  }
}
