// agent/adapters/registry.go: selecting, activating and rolling back adapters.
module Registry {
  import opened Prelude
  import opened Matrix
  import Lex

  /** An installed adapter, as it reports itself; the registry key is the factory's. */
  datatype Adapter = Adapter(name: string, version: string)

  datatype AdapterInfo = AdapterInfo(name: string, version: string, active: bool, disabled: bool)

  datatype Error =
    | NotInstalled | NoCompatibleAdapter | AdapterDisabled | DeactivateFailed | ActivateFailed | HealthCheckFailed
    | NoRollbackTarget | MissingFromDiscovery

  /** How the adapters' own hooks turn out during one activation. */
  datatype Hooks = Hooks(deactivates: bool, activates: bool, healthy: bool, deactivatesNew: bool, restores: bool)

  /** Which step of an activation fails first, if any. */
  function ActivationError(installed: bool, blocked: bool, switching: bool, h: Hooks): Option<Error> {
    if !installed then Some(NotInstalled)
    else if blocked then Some(AdapterDisabled)
    else if switching && !h.deactivates then Some(DeactivateFailed)
    else if !h.activates then Some(ActivateFailed)
    else if !h.healthy then Some(HealthCheckFailed)
    else None
  }

  /** What each failure means, in code order, and when an activation goes through. */
  lemma ActivationExactly(installed: bool, blocked: bool, switching: bool, h: Hooks)
    ensures var e := ActivationError(installed, blocked, switching, h);
            var off := installed && !blocked && (switching ==> h.deactivates);
            && (e == Some(NotInstalled) <==> !installed)
            && (e == Some(AdapterDisabled) <==> installed && blocked)
            && (e == Some(DeactivateFailed) <==> installed && !blocked && switching && !h.deactivates)
            && (e == Some(ActivateFailed) <==> off && !h.activates)
            && (e == Some(HealthCheckFailed) <==> off && h.activates && !h.healthy)
            && (e == None <==> off && h.activates && h.healthy)
  {
  }

  /**
   * Whether a failed activation leaves exactly the active adapter switched on: by each error, given
   * that it was so before. Reactivating the active adapter itself loses it when it turns out unhealthy.
   */
  predicate LeavesOnlyActiveOn(e: Error, active: string, name: string, h: Hooks) {
    match e
    case ActivateFailed => active != "" && active != name ==> h.restores
    case HealthCheckFailed =>
      if active == name then !h.deactivatesNew else h.deactivatesNew && (active != "" ==> h.restores)
    case _ => true
  }

  predicate Rejected(s: Status) {
    s.Unsupported? || s.Unknown?
  }

  lemma {:induction false} RecognizedRowsGiveRecognizedStatus(rows: seq<Entry>, core: string, adapter: string,
                                                              version: string)
    requires forall e | e in rows :: Recognized(e.status)
    ensures Recognized(Lookup(rows, core, adapter, version))
  {
    if rows != [] {
      assert rows[0] in rows;
      RecognizedRowsGiveRecognizedStatus(rows[1..], core, adapter, version);
    }
  }

  class Registry {
    const matrix: seq<Entry>
    const factories: map<string, Adapter>
    var instances: set<string>
    var disabled: map<string, Status>
    /** "" is none. */
    var active: string
    var previous: string
    /** The adapters that are switched on right now. */
    var on: set<string>

    ghost predicate Valid()
      reads this
    {
      && "" !in factories
      && instances <= factories.Keys
      && (active != "" ==> active in factories)
      && (previous != "" ==> previous in factories)
    }

    /** Exactly the active adapter is switched on. */
    ghost predicate OnlyActiveOn()
      reads this
    {
      on == if active == "" then {} else {active}
    }

    constructor (matrix: seq<Entry>, factories: map<string, Adapter>)
      requires "" !in factories
      ensures Valid() && OnlyActiveOn() && this.matrix == matrix && this.factories == factories
      ensures active == "" && previous == "" && disabled == map[]
    {
      this.matrix := matrix;
      this.factories := factories;
      instances := {};
      disabled := map[];
      active, previous := "", "";
      on := {};
    }

    method GetOrCreate(name: string) returns (a: Option<Adapter>)
      requires Valid()
      modifies this`instances
      ensures Valid()
      ensures a == if name in factories then Some(factories[name]) else None
    {
      if name in instances {
        return Some(factories[name]);
      }
      if name !in factories {
        return None;
      }
      instances := instances + {name};
      return Some(factories[name]);
    }

    function InfoOf(name: string): AdapterInfo
      requires name in factories
      reads this
    {
      AdapterInfo(factories[name].name, factories[name].version, active == name, name in disabled)
    }

    method InfosOf(names: seq<string>) returns (infos: seq<AdapterInfo>)
      requires Valid() && forall name | name in names :: name in factories
      modifies this`instances
      ensures Valid() && |infos| == |names| && forall i | 0 <= i < |names| :: infos[i] == InfoOf(names[i])
    {
      infos := [];
      for i := 0 to |names|
        invariant Valid() && |infos| == i && forall j | 0 <= j < i :: infos[j] == InfoOf(names[j])
      {
        var a := GetOrCreate(names[i]);
        infos := infos + [AdapterInfo(a.value.name, a.value.version, active == names[i], names[i] in disabled)];
      }
    }

    /** A listing of all adapters in name order, as Discover gives it. */
    ghost predicate Lists(infos: seq<AdapterInfo>, names: seq<string>)
      reads this
    {
      && Lex.Sorted(names) && |infos| == |names| && (forall name :: name in names <==> name in factories)
      && forall i | 0 <= i < |names| ::
           names[i] in names
           && infos[i] == AdapterInfo(factories[names[i]].name, factories[names[i]].version, names[i] == active,
                                      names[i] in disabled)
    }

    /** Every installed adapter, in name order. */
    method Discover() returns (infos: seq<AdapterInfo>, names: seq<string>)
      requires Valid()
      modifies this`instances
      ensures Valid() && names == Lex.SortedOf(factories.Keys) && |infos| == |names|
      ensures forall name :: name in names <==> name in factories
      ensures Lists(infos, names)
    {
      names := Lex.Sort(factories.Keys);
      forall name ensures name in names <==> name in factories {
        Lex.InElements(name, names);
      }
      infos := InfosOf(names);
    }

    function StatusOf(name: string, core: string): Status
      requires name in factories
    {
      Lookup(matrix, core, name, factories[name].version)
    }

    /** Afterwards an installed adapter is disabled exactly when the matrix rejects it for `core`. */
    method DisableIncompatible(core: string) returns (infos: seq<AdapterInfo>)
      requires Valid()
      modifies this`instances, this`disabled
      ensures Valid()
      ensures forall name | name in factories ::
                name in disabled <==>
                  var status := Lookup(matrix, core, name, factories[name].version);
                  status.Unsupported? || status.Unknown?
      ensures forall name | name !in factories :: name in disabled <==> name in old(disabled)
      ensures Lists(infos, Lex.SortedOf(factories.Keys))
    {
      var rest := factories.Keys;
      while rest != {}
        invariant Valid() && rest <= factories.Keys
        invariant forall name | name in factories && name !in rest ::
                    name in disabled <==> Rejected(StatusOf(name, core))
        invariant forall name | name !in factories :: name in disabled <==> name in old(disabled)
        decreases rest
      {
        var name :| name in rest;
        var a := GetOrCreate(name);
        var status := Lookup(matrix, core, name, a.value.version);
        if status.Unsupported? || status.Unknown? {
          disabled := disabled[name := status];
        } else {
          disabled := disabled - {name};
        }
        rest := rest - {name};
      }
      var names;
      infos, names := Discover();
    }

    /**
     * Makes `name` active, or leaves (active, previous) alone; when replacing another adapter, a
     * failure whose best-effort restore works ends with exactly the old adapter switched on.
     */
    method Activate(name: string, allowUnsupported: bool, h: Hooks) returns (err: Option<Error>)
      requires Valid()
      modifies this
      ensures Valid() && disabled == old(disabled)
      ensures err.None? ==> active == name && previous == old(active)
      ensures err.Some? ==> active == old(active) && previous == old(previous)
      ensures err == ActivationError(name in factories, name in old(disabled) && !allowUnsupported,
                                     old(active) != "" && old(active) != name, h)
      ensures old(OnlyActiveOn()) && err.None? ==> OnlyActiveOn()
      ensures old(OnlyActiveOn()) && err.Some? ==>
                (OnlyActiveOn() <==> LeavesOnlyActiveOn(err.value, old(active), name, h))
    {
      var a := GetOrCreate(name);
      if a.None? {
        return Some(NotInstalled);
      }
      var currentName := active;
      if name in disabled && !allowUnsupported {
        return Some(AdapterDisabled);
      }
      var switching := false;
      if currentName != "" && currentName != name {
        var current := GetOrCreate(currentName);
        switching := current.Some?;
      }
      if switching {
        if !h.deactivates {
          return Some(DeactivateFailed);
        }
        on := on - {currentName};
      }
      if !h.activates {
        if switching && h.restores {
          on := on + {currentName};
        }
        return Some(ActivateFailed);
      }
      on := on + {name};
      if !h.healthy {
        if h.deactivatesNew {
          on := on - {name};
        }
        if switching && h.restores {
          on := on + {currentName};
        }
        return Some(HealthCheckFailed);
      }
      previous := currentName;
      active := name;
      return None;
    }

    /** Swaps back to the previously active adapter. */
    method Rollback(h: Hooks) returns (err: Option<Error>)
      requires Valid()
      modifies this
      ensures Valid()
      ensures err == Some(NoRollbackTarget) <==> old(previous) == ""
      ensures err.None? ==> active == old(previous) && previous == old(active)
      ensures err.Some? ==> active == old(active) && previous == old(previous)
      ensures old(OnlyActiveOn()) && err.None? ==> OnlyActiveOn()
      ensures old(OnlyActiveOn()) && err.Some? ==>
                (OnlyActiveOn() <==> LeavesOnlyActiveOn(err.value, old(active), old(previous), h))
    {
      var prev, cur := previous, active;
      if prev == "" {
        return Some(NoRollbackTarget);
      }
      err := Activate(prev, true, h);
      if err.Some? {
        return;
      }
      previous := cur;
    }

    /** Two successful rollbacks are the identity on (active, previous). */
    method RollbackTwice(h1: Hooks, h2: Hooks) returns (ok: bool)
      requires Valid()
      modifies this
      ensures Valid()
      ensures ok ==> active == old(active) && previous == old(previous)
    {
      var e1 := Rollback(h1);
      if e1.Some? {
        return false;
      }
      var e2 := Rollback(h2);
      ok := e2.None?;
    }

    ghost function Select(core: string, h: Hooks): Result<string, Error>
      reads this
    {
      Selection(matrix, factories, active, core, h)
    }

    /** DisableIncompatible, BestAdapterFor and Activate in a row give exactly what Selection says. */
    method ActivateBest(core: string, h: Hooks) returns (r: Result<string, Error>, status: Status)
      requires Valid()
      modifies this
      ensures Valid()
      ensures r == old(Select(core, h))
      ensures status == match BestRow(matrix, core) case Some(row) => row.status case None => Unknown
      ensures r.Ok? ==> active == r.value && previous == old(active)
      ensures r.Err? ==> active == old(active) && previous == old(previous)
      ensures old(OnlyActiveOn()) && r.Ok? ==> OnlyActiveOn()
    {
      hide Lookup, BestRow, Lists;
      var _ := DisableIncompatible(core);
      var best := BestAdapterFor(matrix, core);
      if best.None? {
        return Err(NoCompatibleAdapter), Unknown;
      }
      assert best.value.adapter != "";
      var name := best.value.adapter;
      if name !in factories {
        return Err(NotInstalled), best.value.status;
      }
      var err := Activate(name, false, h);
      if err.Some? {
        return Err(err.value), best.value.status;
      }
      return Ok(name), best.value.status;
    }

    /** `info` describes the installed adapter first in name order of those that report this name. */
    ghost predicate FirstReporting(name: string, info: AdapterInfo)
      reads this
    {
      exists key | key in factories ::
        && factories[key].name == name
        && info == AdapterInfo(name, factories[key].version, key == active, key in disabled)
        && forall other | other in factories && Lex.Less(other, key) :: factories[other].name != name
    }

    /** Looks an adapter up in a fresh discovery, by the name it reports. */
    method FindReported(name: string) returns (info: Option<AdapterInfo>)
      requires Valid()
      modifies this`instances
      ensures Valid()
      ensures info.Some? <==> Reported(factories, name)
      ensures info.Some? ==> FirstReporting(name, info.value)
    {
      hide FirstReporting, Reported;
      var infos, names := Discover();
      info := FindInfo(infos, name);
      if info.Some? {
        var i :| 0 <= i < |infos| && infos[i] == info.value && forall j | 0 <= j < i :: infos[j].name != name;
        FirstInOrder(infos, names, name, i);
      } else {
        NoneReports(infos, names, name);
      }
    }

    lemma FirstInOrder(infos: seq<AdapterInfo>, names: seq<string>, name: string, i: nat)
      requires Lists(infos, names) && i < |infos| && infos[i].name == name
      requires forall j | 0 <= j < i :: infos[j].name != name
      ensures FirstReporting(name, infos[i]) && Reported(factories, name)
    {
      var key := names[i];
      assert key in factories && factories[key].name == name;
      forall other | other in factories && Lex.Less(other, key) ensures factories[other].name != name {
        var j :| 0 <= j < |names| && names[j] == other;
        NotBefore(names, i, j);
      }
    }

    lemma NoneReports(infos: seq<AdapterInfo>, names: seq<string>, name: string)
      requires Lists(infos, names) && forall j | 0 <= j < |infos| :: infos[j].name != name
      ensures !Reported(factories, name)
    {
      forall key | key in factories ensures factories[key].name != name {
        var j :| 0 <= j < |names| && names[j] == key;
      }
    }

    /**
     * Picks the best row's adapter for a core version, although that choice ignores its version
     * range, and reports that row's status. A success is usable exactly when the matrix text that
     * applies to that choice is a known one; a failure moves the active adapter exactly when the
     * activation works and no installed adapter reports the chosen name.
     */
    method SelectAutomatic(core: string, h: Hooks) returns (r: Result<AdapterInfo, Error>, status: Status)
      requires Valid()
      modifies this
      ensures Valid() && status == match BestRow(matrix, core) case Some(row) => row.status case None => Unknown
      ensures var chosen := old(Select(core, h));
              && (r.Ok? <==> chosen.Ok? && Reported(factories, chosen.value))
              && (r.Err? ==> r.error == if chosen.Err? then chosen.error else MissingFromDiscovery)
              && (active, previous)
                 == (if chosen.Ok? then (chosen.value, old(active)) else (old(active), old(previous)))
              && (r.Ok? ==>
                    && FirstReporting(active, r.value)
                    && !Rejected(StatusOf(active, core))
                    && (Usable(StatusOf(active, core)) <==> !TextUnknown(matrix, factories, core)))
    {
      SelectionUsable(matrix, factories, active, core, h);
      var activated;
      activated, status := ActivateBest(core, h);
      if activated.Err? {
        return Err(activated.error), status;
      }
      var info := FindReported(activated.value);
      if info.Some? {
        return Ok(info.value), status;
      }
      return Err(MissingFromDiscovery), status;
    }
  }

  /* ---------- Automatic selection, before any of it happens ---------- */

  lemma NotBefore(names: seq<string>, i: nat, j: nat)
    requires Lex.Sorted(names) && i < |names| && j < |names| && Lex.Less(names[j], names[i])
    ensures j < i
  {
    if j == i {
      Lex.Irreflexive(names[i]);
    } else if i < j {
      Lex.Asymmetric(names[i], names[j]);
    }
  }

  /** Some installed adapter reports this name. */
  predicate Reported(factories: map<string, Adapter>, name: string) {
    exists key | key in factories :: factories[key].name == name
  }

  /** The adapter that will be picked for a core version. */
  function Best(matrix: seq<Entry>, core: string): Option<string> {
    match BestRow(matrix, core) case Some(row) => Some(row.adapter) case None => None
  }

  /** What activating the best row's adapter will come to. */
  function Selection(matrix: seq<Entry>, factories: map<string, Adapter>, active: string, core: string, h: Hooks)
    : Result<string, Error>
  {
    match Best(matrix, core)
    case None => Err(NoCompatibleAdapter)
    case Some(name) =>
      if name !in factories then Err(NotInstalled)
      else
        var rejected := Rejected(Lookup(matrix, core, name, factories[name].version));
        match ActivationError(true, rejected, active != "" && active != name, h)
        case Some(e) => Err(e)
        case None => Ok(name)
  }

  /** The row that applies to the adapter to be picked, at its own version, holds a text the code does not know. */
  predicate TextUnknown(matrix: seq<Entry>, factories: map<string, Adapter>, core: string) {
    var name := Best(matrix, core);
    name.Some? && name.value in factories
    && !Recognized(Lookup(matrix, core, name.value, factories[name.value].version))
  }

  /**
   * What gets picked: the adapter of the best row, if it is installed, not rejected by the row that
   * applies to its own version, and its hooks do their part.
   */
  lemma SelectionExactly(matrix: seq<Entry>, factories: map<string, Adapter>, active: string, core: string, h: Hooks,
                         name: string)
    ensures Selection(matrix, factories, active, core, h) == Ok(name) <==>
            && BestRow(matrix, core).Some? && BestRow(matrix, core).value.adapter == name && name in factories
            && (var status := Lookup(matrix, core, name, factories[name].version);
                !status.Unsupported? && !status.Unknown?)
            && (active != "" && active != name ==> h.deactivates) && h.activates && h.healthy
  {
  }

  predicate Works(h: Hooks) {
    h.deactivates && h.activates && h.healthy
  }

  /** Whatever selection picks is not rejected, and is usable exactly when its row's text is known. */
  lemma SelectionUsable(matrix: seq<Entry>, factories: map<string, Adapter>, active: string, core: string, h: Hooks)
    ensures var r := Selection(matrix, factories, active, core, h);
            r.Ok? ==>
              && r.value in factories
              && var status := Lookup(matrix, core, r.value, factories[r.value].version);
                 !Rejected(status) && (Usable(status) <==> !TextUnknown(matrix, factories, core))
  {
  }

  /** With adapters that work, an unusable one gets picked exactly when its row's text is unknown. */
  lemma UnknownTextSlipsThrough(matrix: seq<Entry>, factories: map<string, Adapter>, active: string, core: string,
                                h: Hooks)
    requires Works(h)
    ensures var r := Selection(matrix, factories, active, core, h);
            (r.Ok? && !Usable(Lookup(matrix, core, r.value, factories[r.value].version)))
            <==> TextUnknown(matrix, factories, core)
  {
    SelectionUsable(matrix, factories, active, core, h);
  }

  /** A matrix of known texts never lets one slip through. */
  lemma KnownTextsAreSafe(matrix: seq<Entry>, factories: map<string, Adapter>, core: string)
    requires forall e | e in matrix :: Recognized(e.status)
    ensures !TextUnknown(matrix, factories, core)
  {
    var name := Best(matrix, core);
    if name.Some? && name.value in factories {
      RecognizedRowsGiveRecognizedStatus(matrix, core, name.value, factories[name.value].version);
    }
  }

  /** A run that ends on an unusable adapter: an unknown text in a row before a usable one. */
  method RunWithUnknownText(core: string, text: UnknownText)
    returns (registry: Registry, r: Result<AdapterInfo, Error>)
    ensures fresh(registry) && r.Ok? && registry.active == "a" && "a" in registry.factories
    ensures registry.StatusOf("a", core) == Other(text) && !Usable(registry.StatusOf("a", core))
  {
    var rows := [Entry(core, "a", "", "", Other(text)), Entry(core, "a", "", "", Supported)];
    registry := new Registry(rows, map["a" := Adapter("a", "1.0.0")]);
    TwoRows(rows, core);
    assert Reported(registry.factories, "a") by { assert "a" in registry.factories; }
    var status;
    r, status := registry.SelectAutomatic(core, Hooks(true, true, true, true, true));
  }

  /** A run that fails and yet moves the active adapter: it reports a name other than its key. */
  method RunWithHiddenName(core: string) returns (registry: Registry, r: Result<AdapterInfo, Error>)
    ensures fresh(registry) && r == Err(MissingFromDiscovery) && registry.active == "a"
  {
    var rows := [Entry(core, "a", "", "", Supported)];
    registry := new Registry(rows, map["a" := Adapter("b", "1.0.0")]);
    OneRow(rows, core);
    var status;
    r, status := registry.SelectAutomatic(core, Hooks(true, true, true, true, true));
  }

  lemma OneRow(rows: seq<Entry>, core: string)
    requires |rows| == 1 && Selectable(rows[0], core) && rows[0].adapterRange == ""
    ensures Best(rows, core) == Some(rows[0].adapter)
    ensures forall v: string :: Lookup(rows, core, rows[0].adapter, v) == rows[0].status
  {
    assert BestRow(rows[..0], core) == None;
  }

  lemma TwoRows(rows: seq<Entry>, core: string)
    requires |rows| == 2 && rows[0].core == core && !Selectable(rows[0], core) && Selectable(rows[1], core)
    requires rows[0].adapter == rows[1].adapter && rows[0].adapterRange == ""
    ensures Best(rows, core) == Some(rows[1].adapter)
    ensures forall v: string :: Lookup(rows, core, rows[1].adapter, v) == rows[0].status
  {
    assert rows[..1] == [rows[0]] && rows[..1][..0] == [];
    assert BestRow(rows[..1], core) == None;
  }

  method FindInfo(infos: seq<AdapterInfo>, name: string) returns (found: Option<AdapterInfo>)
    ensures found.Some? ==>
              exists i | 0 <= i < |infos| ::
                infos[i] == found.value && found.value.name == name && forall j | 0 <= j < i :: infos[j].name != name
    ensures found.None? ==> forall i | 0 <= i < |infos| :: infos[i].name != name
  {
    for i := 0 to |infos|
      invariant forall j | 0 <= j < i :: infos[j].name != name
    {
      if infos[i].name == name {
        return Some(infos[i]);
      }
    }
    return None;
  }
}
