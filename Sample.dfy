/** One sample ("trial") of an experiment and the bookkeeping of the
    composition graph around it (trial.py).

    A sample keeps two name-keyed maps: `composite` (the samples it was
    made from, with amounts) and `master` (the samples that consume it,
    with amounts).  Adding or removing an edge updates the subject's
    `composite` and the source's `master` as a mirrored pair and debits or
    credits the source's `existingAmount`, where -1 means "unlimited". */
module Sample {
  import opened Outcomes
  import opened Sums

  /** The value -1 that marks an unlimited quantity. */
  const Unlimited: real := -1.0

  /** One registry entry: a registry maps a sample name to `[id, trial]`. */
  datatype Entry = Entry(id: string, trial: Trial)

  class Trial {
    var name: string
    var expName: string
    var composite: map<string, real>
    var master: map<string, real>
    var substanceConc: map<string, real>
    var existingAmount: real
    var totalAmount: real
    var stock: bool
    var solvent: bool
    var id: string

    /** `trial.__init__`: every field is taken from its argument; absent
        maps are passed as empty maps. */
    constructor (name: string, expName: string, composite: map<string, real>,
                 master: map<string, real>, substanceConc: map<string, real>,
                 totalAmount: real, id: string, existingAmount: real,
                 stock: bool, solvent: bool)
      ensures this.name == name && this.expName == expName && this.id == id
      ensures this.composite == composite && this.master == master
      ensures this.substanceConc == substanceConc
      ensures this.totalAmount == totalAmount && this.existingAmount == existingAmount
      ensures this.stock == stock && this.solvent == solvent
    {
      this.name := name;
      this.expName := expName;
      this.composite := composite;
      this.master := master;
      this.substanceConc := substanceConc;
      this.totalAmount := totalAmount;
      this.existingAmount := existingAmount;
      this.stock := stock;
      this.solvent := solvent;
      this.id := id;
    }

    /** A regular sample is neither a stock nor a solvent; only regular
        samples have their concentration derived from their sources. */
    predicate IsRegularSample()
      reads this
    {
      !stock && !solvent
    }

    /** `add_to_composite`: adds `amount` of the registered sample
        `trialName` to this sample.  The effect on the edge is `AddSpec`
        applied to the edge as it was. */
    method AddToComposite(trialName: string, amount: real, allTrials: map<string, Entry>,
                          regardless: bool) returns (r: Outcome)
      modifies this`composite, SourceOf(allTrials, trialName)`master, SourceOf(allTrials, trialName)`existingAmount
      ensures trialName !in allTrials ==> r == Fail(KeyError) && composite == old(composite)
      ensures trialName in allTrials ==>
        var src := allTrials[trialName].trial;
        var step := AddSpec(old(EdgeOf(this, src)), old(name), trialName, amount, regardless);
        r == step.outcome && EdgeOf(this, src) == step.view
      ensures trialName in allTrials && allTrials[trialName].trial != this ==>
        master == old(master) && existingAmount == old(existingAmount) &&
        allTrials[trialName].trial.composite == old(allTrials[trialName].trial.composite)
    {
      if trialName !in allTrials {
        return Fail(KeyError);
      }
      var src := allTrials[trialName].trial;
      if !regardless && src.existingAmount != Unlimited && !(src.existingAmount > amount) {
        return Fail(ValueError);
      }
      if trialName in composite {
        composite := composite[trialName := composite[trialName] + amount];
        if name !in src.master {
          return Fail(KeyError);
        }
        src.master := src.master[name := src.master[name] + amount];
      } else {
        composite := composite[trialName := amount];
        src.master := src.master[name := amount];
      }
      if src.existingAmount != Unlimited {
        src.existingAmount := src.existingAmount - amount;
      }
      r := Pass;
    }

    /** `remove_from_composite`: takes `amount` (or, for -1, all) of
        `trialName` out of this sample.  The composite entry is changed
        before the source is looked up, so an unregistered source leaves
        the composite changed and raises `KeyError`. */
    method RemoveFromComposite(trialName: string, amount: real, allTrials: map<string, Entry>)
      returns (r: Outcome)
      modifies this`composite, SourceOf(allTrials, trialName)`master, SourceOf(allTrials, trialName)`existingAmount
      ensures trialName !in old(composite) ==> r == Fail(ValueError) && composite == old(composite)
      ensures trialName in old(composite) && trialName !in allTrials ==>
        r == Fail(KeyError) &&
        composite == Trimmed(old(composite), trialName, Settle(amount, old(composite)[trialName]))
      ensures trialName in allTrials ==>
        var src := allTrials[trialName].trial;
        var step := RemoveSpec(old(EdgeOf(this, src)), old(name), trialName, amount);
        r == step.outcome && EdgeOf(this, src) == step.view
      ensures trialName in allTrials && allTrials[trialName].trial != this ==>
        master == old(master) && existingAmount == old(existingAmount) &&
        allTrials[trialName].trial.composite == old(allTrials[trialName].trial.composite)
    {
      if trialName !in composite {
        return Fail(ValueError);
      }
      var a := Settle(amount, composite[trialName]);
      var keep := composite[trialName] > a;
      composite := Trimmed(composite, trialName, a);
      if trialName !in allTrials {
        return Fail(KeyError);
      }
      var src := allTrials[trialName].trial;
      if name !in src.master {
        return Fail(KeyError);
      }
      src.master := if keep then src.master[name := src.master[name] - a] else src.master - {name};
      if src.existingAmount != Unlimited {
        src.existingAmount := src.existingAmount + a;
      }
      r := Pass;
    }

    /** `change_name`: renames this sample and moves the key of every
        neighbour's mirrored entry from the old name to the new one: first
        in the masters of its sources, then in the composites of its
        consumers.  When the neighbours are distinct objects other than
        this sample (`Separated`), the rename succeeds exactly when every
        mirrored entry exists, and then each neighbour's map is `Renamed`. */
    method ChangeName(newName: string, allTrials: map<string, Entry>) returns (r: Outcome)
      modifies this`name, Registered(allTrials)`master, Registered(allTrials)`composite
      ensures name == newName
      ensures old(Separated(this, allTrials)) ==> (r == Pass <==> old(RenameFeasible(this, allTrials)))
      ensures old(Separated(this, allTrials)) && r == Pass ==>
        composite == old(composite) && master == old(master) &&
        (forall k :: k in old(composite) ==>
           k in allTrials && allTrials[k].trial.master == Renamed(old(allTrials[k].trial.master), old(name), newName)) &&
        (forall k :: k in old(master) ==>
           k in allTrials && allTrials[k].trial.composite == Renamed(old(allTrials[k].trial.composite), old(name), newName))
      ensures old(Separated(this, allTrials)) ==>
        forall o :: o in Registered(allTrials) && o != this && o !in old(Neighbours(this, allTrials)) ==>
          o.master == old(o.master) && o.composite == old(o.composite)
    {
      ghost var sources, consumers := composite.Keys, master.Keys;
      ghost var sep := Separated(this, allTrials);
      if sep {
        PartsOfDistinct(sources, consumers, allTrials);
      }
      // The loops never read this sample's own `name`, so setting it
      // last (on every path) has the effect of setting it first.
      var oldName := name;
      ghost var consumersHold := CompositesHold(consumers, oldName, allTrials);
      r := RenameInMasters(composite.Keys, oldName, newName, allTrials);
      assert sep ==> master == old(master) && composite == old(composite);
      if r == Pass {
        assert consumersHold == CompositesHold(consumers, oldName, allTrials);
        r := RenameInComposites(master.Keys, oldName, newName, allTrials);
      }
      name := newName;
    }

    /** `update_substance_conc`: recomputes this sample's concentrations
        from its sources, dividing by `assignedAmount` when it is non-zero
        (Python's truthiness of the optional argument) and by the sum of
        the composite amounts otherwise; a total that is not positive
        raises.  The map is cleared before the sources are read, so a
        source that is this sample itself reads the partial result
        (`ClearedAmounts`).  Without such a source the result is
        `Scaled(Amounts(..), total)`, the volume-weighted average; with this
        sample as its only source the result is empty. */
    method UpdateSubstanceConc(allTrials: map<string, Entry>, assignedAmount: real) returns (r: Outcome)
      modifies this`substanceConc
      ensures composite == old(composite) && master == old(master) && name == old(name)
      ensures var total := if assignedAmount != 0.0 then assignedAmount else SumValues(old(composite));
        (total <= 0.0 ==> r == Fail(GenericException) && substanceConc == old(substanceConc)) &&
        (total > 0.0 ==> r == Pass) &&
        (total > 0.0 && SelfFree(this, old(composite), allTrials) ==>
           substanceConc == Scaled(Amounts(old(composite), old(ConcsOf(allTrials))), total)) &&
        (total > 0.0 && OnlySelf(this, old(composite), allTrials) ==> substanceConc == map[])
    {
      ghost var concs := ConcsOf(allTrials);
      var total := assignedAmount;
      if total == 0.0 {
        total := SumOf(composite);
      }
      if total <= 0.0 {
        return Fail(GenericException);
      }
      var amounts := ClearedAmounts(this, composite, allTrials, total);
      assert ConcsOf(allTrials) == concs;
      assert SelfFree(this, composite, allTrials) ==> amounts == Amounts(composite, concs);
      substanceConc := Scaled(amounts, total);
      r := Pass;
    }
  }

  /** The set of trial objects a registry refers to. */
  function Registered(allTrials: map<string, Entry>): set<Trial>
  {
    set k | k in allTrials :: allTrials[k].trial
  }

  /** The trial registered under `key`, as a frame. */
  function SourceOf(allTrials: map<string, Entry>, key: string): set<Trial>
  {
    if key in allTrials then {allTrials[key].trial} else {}
  }

  /** The registered objects that the names in `keys` refer to. */
  function Image(keys: set<string>, allTrials: map<string, Entry>): set<Trial>
  {
    set k | k in keys && k in allTrials :: allTrials[k].trial
  }

  /** Different registered names in `keys` refer to different objects. */
  predicate Distinct(keys: set<string>, allTrials: map<string, Entry>)
  {
    forall k1, k2 :: k1 in keys && k2 in keys && k1 in allTrials && k2 in allTrials && k1 != k2 ==>
      allTrials[k1].trial != allTrials[k2].trial
  }

  /** Both parts of a set of names that is `Distinct` are `Distinct`,
      and their images are parts of its image. */
  lemma PartsOfDistinct(a: set<string>, b: set<string>, allTrials: map<string, Entry>)
    requires Distinct(a + b, allTrials)
    ensures Distinct(a, allTrials) && Distinct(b, allTrials)
    ensures Image(a, allTrials) <= Image(a + b, allTrials) && Image(b, allTrials) <= Image(a + b, allTrials)
  {
  }

  /** The registered samples this sample's two maps name. */
  ghost function Neighbours(t: Trial, allTrials: map<string, Entry>): set<Trial>
    reads t
  {
    Image(t.composite.Keys + t.master.Keys, allTrials)
  }

  /** The names in this sample's two maps refer to distinct registered
      objects, none of which is the sample itself. */
  ghost predicate Separated(t: Trial, allTrials: map<string, Entry>)
    reads t
  {
    t !in Neighbours(t, allTrials) && Distinct(t.composite.Keys + t.master.Keys, allTrials)
  }

  /** Every name in `keys` is registered, and that sample's master holds
      an entry under `oldName`. */
  ghost predicate MastersHold(keys: set<string>, oldName: string, allTrials: map<string, Entry>)
    reads Registered(allTrials)
  {
    forall k :: k in keys ==> k in allTrials && oldName in allTrials[k].trial.master
  }

  /** Every name in `keys` is registered, and that sample's composite
      holds an entry under `oldName`. */
  ghost predicate CompositesHold(keys: set<string>, oldName: string, allTrials: map<string, Entry>)
    reads Registered(allTrials)
  {
    forall k :: k in keys ==> k in allTrials && oldName in allTrials[k].trial.composite
  }

  /** Every neighbour is registered and holds the mirrored entry under
      this sample's current name. */
  ghost predicate RenameFeasible(t: Trial, allTrials: map<string, Entry>)
    reads t, Registered(allTrials)
  {
    MastersHold(t.composite.Keys, t.name, allTrials) && CompositesHold(t.master.Keys, t.name, allTrials)
  }

  /** The first loop of `change_name`: for each source name in `keys`,
      the source's master entry `oldName` moves to `newName`; a missing
      source or entry raises `KeyError` and stops the loop. */
  method RenameInMasters(keys: set<string>, oldName: string, newName: string, allTrials: map<string, Entry>)
    returns (r: Outcome)
    modifies Registered(allTrials)`master
    ensures forall o :: o in Registered(allTrials) && o !in Image(keys, allTrials) ==> o.master == old(o.master)
    ensures Distinct(keys, allTrials) ==> (r == Pass <==> old(MastersHold(keys, oldName, allTrials)))
    ensures Distinct(keys, allTrials) && r == Pass ==>
      forall k :: k in keys ==>
        k in allTrials && allTrials[k].trial.master == Renamed(old(allTrials[k].trial.master), oldName, newName)
  {
    var todo := keys;
    while todo != {}
      invariant todo <= keys
      invariant forall o :: o in Registered(allTrials) && o !in Image(keys - todo, allTrials) ==> o.master == old(o.master)
      invariant Distinct(keys, allTrials) ==> forall k :: k in keys - todo ==>
        k in allTrials && oldName in old(allTrials[k].trial.master) &&
        allTrials[k].trial.master == Renamed(old(allTrials[k].trial.master), oldName, newName)
      decreases todo
    {
      var k :| k in todo;
      if k !in allTrials {
        return Fail(KeyError);
      }
      var t := allTrials[k].trial;
      if oldName !in t.master {
        return Fail(KeyError);
      }
      t.master := Renamed(t.master, oldName, newName);
      todo := todo - {k};
    }
    r := Pass;
  }

  /** The second loop of `change_name`: the same for the composites of
      the consumers named in `keys`. */
  method RenameInComposites(keys: set<string>, oldName: string, newName: string, allTrials: map<string, Entry>)
    returns (r: Outcome)
    modifies Registered(allTrials)`composite
    ensures forall o :: o in Registered(allTrials) && o !in Image(keys, allTrials) ==> o.composite == old(o.composite)
    ensures Distinct(keys, allTrials) ==> (r == Pass <==> old(CompositesHold(keys, oldName, allTrials)))
    ensures Distinct(keys, allTrials) && r == Pass ==>
      forall k :: k in keys ==>
        k in allTrials && allTrials[k].trial.composite == Renamed(old(allTrials[k].trial.composite), oldName, newName)
  {
    var todo := keys;
    while todo != {}
      invariant todo <= keys
      invariant forall o :: o in Registered(allTrials) && o !in Image(keys - todo, allTrials) ==> o.composite == old(o.composite)
      invariant Distinct(keys, allTrials) ==> forall k :: k in keys - todo ==>
        k in allTrials && oldName in old(allTrials[k].trial.composite) &&
        allTrials[k].trial.composite == Renamed(old(allTrials[k].trial.composite), oldName, newName)
      decreases todo
    {
      var k :| k in todo;
      if k !in allTrials {
        return Fail(KeyError);
      }
      var t := allTrials[k].trial;
      if oldName !in t.composite {
        return Fail(KeyError);
      }
      t.composite := Renamed(t.composite, oldName, newName);
      todo := todo - {k};
    }
    r := Pass;
  }

  /** `m[new] = m[old]; del m[old]`. */
  function Renamed(m: map<string, real>, oldKey: string, newKey: string): (r: map<string, real>)
    requires oldKey in m
    ensures oldKey !in r
    ensures newKey != oldKey ==> newKey in r && r[newKey] == m[oldKey]
    ensures forall k :: k != oldKey && k != newKey ==> (k in r <==> k in m) && (k in r ==> r[k] == m[k])
  {
    m[newKey := m[oldKey]] - {oldKey}
  }

  /** The concentrations of the registered samples, by registry name. */
  function ConcsOf(allTrials: map<string, Entry>): map<string, map<string, real>>
    reads Registered(allTrials)`substanceConc
  {
    map k | k in allTrials :: allTrials[k].trial.substanceConc
  }

  // ---------------------------------------------------------------------
  // The edge as a value

  /** What an edge operation touches: the subject's composite, the
      source's master and the source's remaining amount. */
  datatype EdgeView = EdgeView(composite: map<string, real>, master: map<string, real>, existing: real)

  /** The outcome of an edge operation together with the edge after it
      (after a failure, the edge as the source leaves it). */
  datatype EdgeStep = EdgeStep(outcome: Outcome, view: EdgeView)

  function EdgeOf(subject: Trial, source: Trial): EdgeView
    reads subject, source
  {
    EdgeView(subject.composite, source.master, source.existingAmount)
  }

  /** A finite quantity loses `amount`; an unlimited one stays unlimited. */
  function Debit(existing: real, amount: real): real
  {
    if existing == Unlimited then existing else existing - amount
  }

  /** A finite quantity regains `amount`; an unlimited one stays unlimited. */
  function Credit(existing: real, amount: real): real
  {
    if existing == Unlimited then existing else existing + amount
  }

  /** The amount a removal takes: -1 stands for the whole edge. */
  function Settle(amount: real, edge: real): real
  {
    if amount == Unlimited then edge else amount
  }

  /** The composite after taking `a` out of `key`: the entry drops by `a`
      while it stays above `a`, and disappears otherwise. */
  function Trimmed(c: map<string, real>, key: string, a: real): map<string, real>
    requires key in c
  {
    if c[key] > a then c[key := c[key] - a] else c - {key}
  }

  /** Adding `amount` of `source` to `subject`, on the edge as a value.
      Without `regardless`, a finite source that does not hold strictly
      more than `amount` refuses with `ValueError`.  An existing edge whose
      mirror is missing raises `KeyError` after the composite was raised. */
  function AddSpec(v: EdgeView, subject: string, source: string, amount: real, regardless: bool): EdgeStep
  {
    if !regardless && v.existing != Unlimited && !(v.existing > amount) then
      EdgeStep(Fail(ValueError), v)
    else if source in v.composite then
      var c := v.composite[source := v.composite[source] + amount];
      if subject in v.master then
        EdgeStep(Pass, EdgeView(c, v.master[subject := v.master[subject] + amount], Debit(v.existing, amount)))
      else
        EdgeStep(Fail(KeyError), v.(composite := c))
    else
      EdgeStep(Pass, EdgeView(v.composite[source := amount], v.master[subject := amount], Debit(v.existing, amount)))
  }

  /** Taking `amount` (-1: all) of `source` out of `subject`, on the edge
      as a value.  The master entry follows the composite's comparison;
      the source is credited with the amount taken. */
  function RemoveSpec(v: EdgeView, subject: string, source: string, amount: real): EdgeStep
  {
    if source !in v.composite then EdgeStep(Fail(ValueError), v)
    else
      var a := Settle(amount, v.composite[source]);
      var keep := v.composite[source] > a;
      var c := Trimmed(v.composite, source, a);
      if subject !in v.master then EdgeStep(Fail(KeyError), v.(composite := c))
      else
        var m := if keep then v.master[subject := v.master[subject] - a] else v.master - {subject};
        EdgeStep(Pass, EdgeView(c, m, Credit(v.existing, a)))
  }

  /** The edge is mirrored: the subject names the source exactly when the
      source names the subject, with the same amount. */
  ghost predicate Mirrored(v: EdgeView, subject: string, source: string)
  {
    (source in v.composite <==> subject in v.master) &&
    (source in v.composite ==> v.composite[source] == v.master[subject])
  }

  /** On a mirrored edge, an add succeeds exactly when the check on the
      remaining amount lets it through; a refused add changes nothing. */
  lemma AddOutcome(v: EdgeView, subject: string, source: string, amount: real, regardless: bool)
    requires Mirrored(v, subject, source)
    ensures var st := AddSpec(v, subject, source, amount, regardless);
      (st.outcome == Pass <==> regardless || v.existing == Unlimited || v.existing > amount) &&
      (st.outcome != Pass ==> st.outcome == Fail(ValueError) && st.view == v)
  {
  }

  /** A successful add raises both sides of the edge by `amount`, keeps
      them mirrored and debits a finite source by `amount`. */
  lemma AddKeepsMirror(v: EdgeView, subject: string, source: string, amount: real, regardless: bool)
    requires Mirrored(v, subject, source)
    requires AddSpec(v, subject, source, amount, regardless).outcome == Pass
    ensures var w := AddSpec(v, subject, source, amount, regardless).view;
      Mirrored(w, subject, source) && source in w.composite &&
      w.composite[source] == (if source in v.composite then v.composite[source] else 0.0) + amount &&
      w.composite - {source} == v.composite - {source} && w.master - {subject} == v.master - {subject} &&
      w.existing == (if v.existing == Unlimited then Unlimited else v.existing - amount)
  {
  }

  /** A successful removal keeps the edge mirrored: both sides drop by the
      amount taken, or both entries disappear. */
  lemma RemoveKeepsMirror(v: EdgeView, subject: string, source: string, amount: real)
    requires Mirrored(v, subject, source)
    requires RemoveSpec(v, subject, source, amount).outcome == Pass
    ensures var w := RemoveSpec(v, subject, source, amount).view;
      Mirrored(w, subject, source) &&
      w.composite - {source} == v.composite - {source} && w.master - {subject} == v.master - {subject}
  {
  }

  /** Removing with -1 takes the whole edge away and credits the source
      with all of it. */
  lemma RemoveAll(v: EdgeView, subject: string, source: string)
    requires Mirrored(v, subject, source) && source in v.composite
    ensures var st := RemoveSpec(v, subject, source, Unlimited);
      st.outcome == Pass && source !in st.view.composite && subject !in st.view.master &&
      st.view.existing == Credit(v.existing, v.composite[source])
  {
  }

  /** Adding `amount` and then removing the same amount restores the edge,
      provided the amount is positive, an existing edge is positive, and a
      finite source does not land on -1 on the way. */
  lemma AddThenRemove(v: EdgeView, subject: string, source: string, amount: real, regardless: bool)
    requires Mirrored(v, subject, source)
    requires AddSpec(v, subject, source, amount, regardless).outcome == Pass
    requires amount > 0.0 && (source in v.composite ==> v.composite[source] > 0.0)
    requires v.existing != Unlimited ==> v.existing - amount != Unlimited
    ensures var w := AddSpec(v, subject, source, amount, regardless).view;
      RemoveSpec(w, subject, source, amount) == EdgeStep(Pass, v)
  {
    var w := AddSpec(v, subject, source, amount, regardless).view;
    var back := RemoveSpec(w, subject, source, amount).view;
    if source in v.composite {
      assert back.composite == v.composite;
      assert back.master == v.master;
    } else {
      assert back.composite == v.composite;
      assert back.master == v.master;
    }
  }

  /** An unlimited source stays unlimited through adds and removals. */
  lemma UnlimitedStays(v: EdgeView, subject: string, source: string, amount: real, regardless: bool)
    requires v.existing == Unlimited
    ensures AddSpec(v, subject, source, amount, regardless).view.existing == Unlimited
    ensures RemoveSpec(v, subject, source, amount).view.existing == Unlimited
  {
  }

  /** Quirk of the -1 marker: a finite source debited exactly to -1 turns
      unlimited.  A forced add of 1 from a source holding 0 leaves it
      unlimited, and taking the amount back credits nothing. */
  lemma DebitToUnlimited()
    ensures var w := AddSpec(EdgeView(map[], map[], 0.0), "mix", "stock", 1.0, true).view;
      w.existing == Unlimited &&
      RemoveSpec(w, "mix", "stock", 1.0).view.existing == Unlimited
  {
  }

  /** Quirk of `remove_from_composite`: asking for more than the edge
      holds deletes the edge but credits the source with the amount asked
      for, not the amount the edge held. */
  lemma RemoveOverCredits(v: EdgeView, subject: string, source: string, amount: real)
    requires Mirrored(v, subject, source) && source in v.composite
    requires amount != Unlimited && amount >= v.composite[source] && v.existing != Unlimited
    ensures var w := RemoveSpec(v, subject, source, amount).view;
      source !in w.composite && w.existing == v.existing + amount
  {
  }

  /** Quirk of `change_name`: renaming to the same name deletes the
      entry. */
  lemma RenameToSelf(m: map<string, real>, k: string)
    requires k in m
    ensures Renamed(m, k, k) == m - {k}
  {
  }

  // ---------------------------------------------------------------------
  // Weighted averages

  /** Each present source's amount of substance `sub`: its concentration
      of `sub` times the volume used. */
  ghost function Contribution(composite: map<string, real>, concs: map<string, map<string, real>>,
                              sub: string): map<string, real>
  {
    map c | c in composite && c in concs && sub in concs[c] :: concs[c][sub] * composite[c]
  }

  /** The substances some present source has a concentration for. */
  ghost function SubstancesIn(composite: map<string, real>, concs: map<string, map<string, real>>): set<string>
  {
    set c, s | c in composite && c in concs && s in concs[c] :: s
  }

  /** Total amount of each substance brought in by the sources. */
  ghost function Amounts(composite: map<string, real>, concs: map<string, map<string, real>>): map<string, real>
  {
    map s | s in SubstancesIn(composite, concs) :: SumValues(Contribution(composite, concs, s))
  }

  /** Amounts divided by the total volume. */
  function Scaled(amounts: map<string, real>, total: real): map<string, real>
    requires total != 0.0
  {
    map s | s in amounts :: amounts[s] / total
  }

  /** `acc` plus the contribution of one source with concentrations `src`
      at volume `v`, for the substances in `part` only. */
  function AddScaledPart(acc: map<string, real>, src: map<string, real>, v: real, part: set<string>): map<string, real>
    requires part <= src.Keys
  {
    map s | s in acc.Keys + part :: (if s in acc then acc[s] else 0.0) + (if s in part then src[s] * v else 0.0)
  }

  /** A source's concentrations times its volume. */
  function Weighted(src: map<string, real>, v: real): map<string, real>
  {
    map s | s in src :: src[s] * v
  }

  /** `acc` plus the entries of `add` whose keys are in `part`. */
  function AddPart(acc: map<string, real>, add: map<string, real>, part: set<string>): map<string, real>
    requires part <= add.Keys
  {
    map s | s in acc.Keys + part :: (if s in acc then acc[s] else 0.0) + (if s in part then add[s] else 0.0)
  }

  /** One more entry of `add` added to the running sums. */
  lemma AddPartStep(acc: map<string, real>, add: map<string, real>, part: set<string>, s: string)
    requires part <= add.Keys && s in add && s !in part
    ensures var before := AddPart(acc, add, part);
      AddPart(acc, add, part + {s}) == before[s := (if s in before then before[s] else 0.0) + add[s]]
  {
    var before := AddPart(acc, add, part);
    var after := AddPart(acc, add, part + {s});
    var expected := before[s := (if s in before then before[s] else 0.0) + add[s]];
    assert after.Keys == expected.Keys;
    forall x | x in after.Keys ensures after[x] == expected[x] {
      if x == s {
        assert (if s in before then before[s] else 0.0) == (if s in acc then acc[s] else 0.0);
      }
    }
  }

  /** One more substance of the source added to the running amounts. */
  lemma AddScaledPartStep(acc: map<string, real>, src: map<string, real>, v: real, part: set<string>, s: string)
    requires part <= src.Keys && s in src && s !in part
    ensures var before := AddScaledPart(acc, src, v, part);
      AddScaledPart(acc, src, v, part + {s}) == before[s := (if s in before then before[s] else 0.0) + src[s] * v]
  {
    ScaledAsPart(acc, src, v, part);
    ScaledAsPart(acc, src, v, part + {s});
    AddPartStep(acc, Weighted(src, v), part, s);
  }

  lemma ScaledAsPart(acc: map<string, real>, src: map<string, real>, v: real, part: set<string>)
    requires part <= src.Keys
    ensures AddScaledPart(acc, src, v, part) == AddPart(acc, Weighted(src, v), part)
  {
    var a, b := AddScaledPart(acc, src, v, part), AddPart(acc, Weighted(src, v), part);
    assert a.Keys == b.Keys;
    forall x | x in a ensures a[x] == b[x] {
      if x in part {
        assert Weighted(src, v)[x] == src[x] * v;
      }
    }
  }

  /** A new source with a concentration of `s` adds one entry to the
      contributions to `s`. */
  lemma ContributionWith(done: map<string, real>, concs: map<string, map<string, real>>, c: string, v: real, s: string)
    requires c !in done && c in concs && s in concs[c]
    ensures Contribution(done[c := v], concs, s) == Contribution(done, concs, s)[c := concs[c][s] * v]
  {
    var a, b := Contribution(done[c := v], concs, s), Contribution(done, concs, s)[c := concs[c][s] * v];
    assert a.Keys == b.Keys;
    forall x | x in a ensures a[x] == b[x] { }
  }

  /** A new source without a concentration of `s` leaves the
      contributions to `s` as they were. */
  lemma ContributionWithout(done: map<string, real>, concs: map<string, map<string, real>>, c: string, v: real, s: string)
    requires c !in done && (c !in concs || s !in concs[c])
    ensures Contribution(done[c := v], concs, s) == Contribution(done, concs, s)
  {
    var a, b := Contribution(done[c := v], concs, s), Contribution(done, concs, s);
    assert a.Keys == b.Keys;
    forall x | x in a ensures a[x] == b[x] { }
  }

  /** A substance no source provides has no contributions. */
  lemma ContributionNone(done: map<string, real>, concs: map<string, map<string, real>>, s: string)
    requires s !in SubstancesIn(done, concs)
    ensures Contribution(done, concs, s) == map[]
  {
  }

  /** The amount of one substance after a new source with
      concentrations is added. */
  lemma {:induction false} AmountAt(done: map<string, real>, concs: map<string, map<string, real>>, c: string, v: real, s: string)
    requires c !in done && c in concs
    requires s in SubstancesIn(done[c := v], concs)
    ensures s in SubstancesIn(done, concs) + concs[c].Keys
    ensures SumValues(Contribution(done[c := v], concs, s)) ==
              (if s in SubstancesIn(done, concs) then SumValues(Contribution(done, concs, s)) else 0.0) +
              (if s in concs[c] then concs[c][s] * v else 0.0)
  {
    var before := Contribution(done, concs, s);
    if s in concs[c] {
      ContributionWith(done, concs, c, v, s);
      SumValuesInsert(before, c, concs[c][s] * v);
      if s !in SubstancesIn(done, concs) {
        ContributionNone(done, concs, s);
      }
    } else {
      ContributionWithout(done, concs, c, v, s);
    }
  }

  /** Adding one more source to the composite adds its contribution. */
  lemma {:induction false} AmountsStep(done: map<string, real>, concs: map<string, map<string, real>>, c: string, v: real)
    requires c !in done
    ensures c in concs ==> Amounts(done[c := v], concs) == AddScaledPart(Amounts(done, concs), concs[c], v, concs[c].Keys)
    ensures c !in concs ==> Amounts(done[c := v], concs) == Amounts(done, concs)
  {
    if c in concs {
      AmountsWith(done, concs, c, v);
    } else {
      AmountsWithout(done, concs, c, v);
    }
  }

  lemma {:induction false} AmountsWith(done: map<string, real>, concs: map<string, map<string, real>>, c: string, v: real)
    requires c !in done && c in concs
    ensures Amounts(done[c := v], concs) == AddScaledPart(Amounts(done, concs), concs[c], v, concs[c].Keys)
  {
    var next := done[c := v];
    var src := concs[c];
    SubstancesWith(done, concs, c, v);
    var lhs := Amounts(next, concs);
    var rhs := AddScaledPart(Amounts(done, concs), src, v, src.Keys);
    AddScaledPartAt(Amounts(done, concs), src, v, src.Keys);
    assert lhs.Keys == rhs.Keys;
    forall s | s in lhs.Keys
      ensures lhs[s] == rhs[s]
    {
      AmountAt(done, concs, c, v, s);
      EntryOfScaledPart(lhs[s], Amounts(done, concs), src, v, src.Keys, s,
        SumValues(Contribution(done, concs, s)), s in SubstancesIn(done, concs));
    }
  }

  /** An entry of `AddScaledPart` is the earlier entry, if any, plus the
      source's share, if any. */
  lemma EntryOfScaledPart(total: real, acc: map<string, real>, src: map<string, real>, v: real, part: set<string>, s: string,
                          earlier: real, inBefore: bool)
    requires part <= src.Keys && s in acc.Keys + part
    requires s in acc <==> inBefore
    requires inBefore ==> acc[s] == earlier
    requires total == (if inBefore then earlier else 0.0) + (if s in part then src[s] * v else 0.0)
    ensures s in AddScaledPart(acc, src, v, part) && AddScaledPart(acc, src, v, part)[s] == total
  {
  }

  /** A new source with concentrations brings in its substances. */
  lemma SubstancesWith(done: map<string, real>, concs: map<string, map<string, real>>, c: string, v: real)
    requires c !in done && c in concs
    ensures SubstancesIn(done[c := v], concs) == SubstancesIn(done, concs) + concs[c].Keys
  {
    forall s | s in concs[c].Keys ensures s in SubstancesIn(done[c := v], concs) {
      assert c in done[c := v] && c in concs && s in concs[c];
    }
  }

  /** The keys and entries of `AddScaledPart`. */
  lemma AddScaledPartAt(acc: map<string, real>, src: map<string, real>, v: real, part: set<string>)
    requires part <= src.Keys
    ensures AddScaledPart(acc, src, v, part).Keys == acc.Keys + part
    ensures forall s :: s in AddScaledPart(acc, src, v, part) ==>
      AddScaledPart(acc, src, v, part)[s] == (if s in acc then acc[s] else 0.0) + (if s in part then src[s] * v else 0.0)
  {
  }

  lemma {:induction false} AmountsWithout(done: map<string, real>, concs: map<string, map<string, real>>, c: string, v: real)
    requires c !in done && c !in concs
    ensures Amounts(done[c := v], concs) == Amounts(done, concs)
  {
    var next := done[c := v];
    assert SubstancesIn(next, concs) == SubstancesIn(done, concs);
    forall s | s in SubstancesIn(done, concs)
      ensures Contribution(next, concs, s) == Contribution(done, concs, s)
    {
      ContributionWithout(done, concs, c, v, s);
    }
  }

  /** No sources, no amounts. */
  lemma AmountsEmpty(concs: map<string, map<string, real>>)
    ensures Amounts(map[], concs) == map[]
  {
    assert SubstancesIn(map[], concs) == {};
  }

  /** Nothing of the source added yet. */
  lemma AddScaledPartNone(acc: map<string, real>, src: map<string, real>, v: real)
    ensures AddScaledPart(acc, src, v, {}) == acc
  {
    var r := AddScaledPart(acc, src, v, {});
    assert r.Keys == acc.Keys;
    forall x | x in r.Keys ensures r[x] == acc[x] { }
  }

  /** The inner loop: one source's concentrations times its volume,
      added substance by substance to the running amounts. */
  method AddSource(acc: map<string, real>, src: map<string, real>, vol: real) returns (amounts: map<string, real>)
    ensures amounts == AddScaledPart(acc, src, vol, src.Keys)
  {
    AddScaledPartNone(acc, src, vol);
    amounts := acc;
    var subs := src.Keys;
    while subs != {}
      invariant subs <= src.Keys
      invariant amounts == AddScaledPart(acc, src, vol, src.Keys - subs)
      decreases subs
    {
      var s :| s in subs;
      AddScaledPartStep(acc, src, vol, src.Keys - subs, s);
      assert (src.Keys - subs) + {s} == src.Keys - (subs - {s});
      amounts := amounts[s := (if s in amounts then amounts[s] else 0.0) + src[s] * vol];
      subs := subs - {s};
    }
    assert src.Keys - subs == src.Keys;
  }

  /** The loops of `update_substance_conc` and
      `_calculate_trial_concentration` that accumulate, per substance, the
      source concentration times the volume used, over the sources present
      in the registry (the others are skipped). */
  method SourceAmounts(composite: map<string, real>, concs: map<string, map<string, real>>) returns (amounts: map<string, real>)
    ensures amounts == Amounts(composite, concs)
  {
    ghost var done: map<string, real> := map[];
    AmountsEmpty(concs);
    amounts := map[];
    var rest := composite.Keys;
    while rest != {}
      invariant rest <= composite.Keys
      invariant done.Keys == composite.Keys - rest
      invariant forall k :: k in done ==> done[k] == composite[k]
      invariant amounts == Amounts(done, concs)
      decreases rest
    {
      var c :| c in rest;
      AmountsStep(done, concs, c, composite[c]);
      if c in concs {
        amounts := AddSource(amounts, concs[c], composite[c]);
      }
      done := done[c := composite[c]];
      rest := rest - {c};
    }
    assert done == composite;
  }

  /** No registered source in `composite` is the sample `t` itself. */
  predicate SelfFree(t: Trial, composite: map<string, real>, allTrials: map<string, Entry>)
  {
    forall k :: k in composite && k in allTrials ==> allTrials[k].trial != t
  }

  /** Every registered source in `composite` is the sample `t` itself. */
  predicate OnlySelf(t: Trial, composite: map<string, real>, allTrials: map<string, Entry>)
  {
    forall k :: k in composite && k in allTrials ==> allTrials[k].trial == t
  }

  /** Reading an empty running map as a source adds nothing. */
  lemma SelfRead(amounts: map<string, real>, total: real, v: real)
    requires total != 0.0
    ensures amounts == map[] ==> AddScaledPart(amounts, Scaled(amounts, total), v, Scaled(amounts, total).Keys) == map[]
  {
  }

  /** The loop of `update_substance_conc`, which runs after `t`'s own
      concentrations were cleared.  A registered source that is `t` itself
      contributes what has been accumulated so far (divided by `total`,
      as Python's running map holds quotients), every other registered
      source its concentrations, and unregistered ones nothing.  Without a
      self-source this is `Amounts`; with `t` as the only source the
      result is empty whatever `t` held before. */
  method ClearedAmounts(t: Trial, composite: map<string, real>, allTrials: map<string, Entry>, total: real)
    returns (amounts: map<string, real>)
    requires total != 0.0
    ensures SelfFree(t, composite, allTrials) ==> amounts == Amounts(composite, ConcsOf(allTrials))
    ensures OnlySelf(t, composite, allTrials) ==> amounts == map[]
  {
    ghost var concs := ConcsOf(allTrials);
    ghost var done: map<string, real> := map[];
    AmountsEmpty(concs);
    amounts := map[];
    var rest := composite.Keys;
    while rest != {}
      invariant rest <= composite.Keys
      invariant done.Keys == composite.Keys - rest
      invariant forall k :: k in done ==> done[k] == composite[k]
      invariant SelfFree(t, composite, allTrials) ==> amounts == Amounts(done, concs)
      invariant OnlySelf(t, composite, allTrials) ==> amounts == map[]
      decreases rest
    {
      var c :| c in rest;
      AmountsStep(done, concs, c, composite[c]);
      assert c in concs <==> c in allTrials;
      if c in allTrials {
        if allTrials[c].trial == t {
          // Only the partial result can be read here, so `SelfFree` fails.
          assert !SelfFree(t, composite, allTrials);
          SelfRead(amounts, total, composite[c]);
          amounts := AddSource(amounts, Scaled(amounts, total), composite[c]);
        } else {
          assert !OnlySelf(t, composite, allTrials);
          assert concs[c] == allTrials[c].trial.substanceConc;
          amounts := AddSource(amounts, allTrials[c].trial.substanceConc, composite[c]);
        }
      }
      done := done[c := composite[c]];
      rest := rest - {c};
    }
    assert done == composite;
    assert concs == ConcsOf(allTrials);
  }
}
