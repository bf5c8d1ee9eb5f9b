/** The list of registered trace components and the options kept for components that
    register later (omrtracecomponent.cpp). */
module TraceComponents {
  import opened TraceConfig
  import opened Wrappers
  import opened CStrings

  // ---------- The state as a value ----------

  datatype Component = Component(info: ModuleInfo, active: seq<bv8>)

  datatype Registry = Registry(components: seq<Component>, deferred: seq<Config>)

  predicate Registered(components: seq<Component>, name: string) {
    exists c <- components :: SameName(name, c.info.name)
  }

  function LiveComponent(c: Component, cfg: Config): Component {
    c.(active := LiveEffect(cfg, c.info, c.active))
  }

  // Setting an option: it takes effect on the registered components, and is kept when
  // it is for all components or names one that is not registered.
  function SetOption(r: Registry, cfg: Config): Registry {
    Registry(
      seq(|r.components|, i requires 0 <= i < |r.components| => LiveComponent(r.components[i], cfg)),
      if IsForAll(cfg) || !Registered(r.components, cfg.name) then r.deferred + [cfg] else r.deferred)
  }

  // The options kept so far, applied in the order in which they were set.
  function Replay(configs: seq<Config>, info: ModuleInfo, active: seq<bv8>): seq<bv8> {
    if configs == [] then active
    else DeferredEffect(configs[|configs| - 1], info, Replay(configs[..|configs| - 1], info, active))
  }

  // What an option for one component returns: an error if it is rejected, or if a group of
  // it is missing.
  function ConfigCode(cfg: Config, info: ModuleInfo): ErrorCode {
    if Rejected(cfg, info) then Internal
    else if cfg.group.Some? && !(info.groups.Some? && AllGroupsFound(info.groups.value, cfg.group.value)) then IllegalArgument
    else NoError
  }

  // The last error of the options that name the component; errors of options for all
  // components are suppressed.
  function ReplayCode(configs: seq<Config>, info: ModuleInfo): ErrorCode {
    if configs == [] then NoError
    else NextCode(ReplayCode(configs[..|configs| - 1], info), configs[|configs| - 1], info)
  }

  function NextCode(rc: ErrorCode, cfg: Config, info: ModuleInfo): ErrorCode {
    if !SameName(cfg.name, ALL) && SameName(cfg.name, info.name) && ConfigCode(cfg, info) != NoError then ConfigCode(cfg, info)
    else rc
  }

  function Register(r: Registry, info: ModuleInfo, active: seq<bv8>): Registry {
    r.(components := r.components + [Component(info, Replay(r.deferred, info, active))])
  }

  // ---------- The list ----------

  class ComponentData {
    const info: ModuleInfo
    const active: array<bv8>

    constructor (info: ModuleInfo, initial: seq<bv8>)
      requires |initial| == info.count
      ensures this.info == info && fresh(active) && active[..] == initial
    {
      this.info := info;
      active := new bv8[|initial|](i requires 0 <= i < |initial| => initial[i]);
    }

    predicate Valid() {
      active.Length == info.count && Configurable(info)
    }

    method UpdateActiveArray(first: nat, last: int, value: bv8, setActive: bool)
      requires Valid() && last < info.count
      modifies active
      ensures active[..] == Apply(old(active[..]), InRange(info.count, first, last), value, setActive)
    {
      var i := first;
      while i <= last
        invariant first <= i && i <= if first <= last then last + 1 else first
        invariant forall k :: 0 <= k < active.Length ==>
                    active[k] == if first <= k < i then SetBits(old(active[k]), value, setActive) else old(active[k])
      {
        active[i] := SetBits(active[i], value, setActive);
        i := i + 1;
      }
      ghost var expected := Apply(old(active[..]), InRange(info.count, first, last), value, setActive);
      forall k: nat | k < active.Length ensures active[k] == expected[k] {
        assert k in InRange(info.count, first, last) <==> Within(k, first, last);
      }
    }

    method SetTracePointsByLevelTo(level: int, value: bv8, setActive: bool)
      requires Valid()
      modifies active
      ensures active[..] == Apply(old(active[..]), UpToLevel(info, level), value, setActive)
    {
      if info.levels.None? {
        ApplyNothing(active[..], value, setActive);
        return;
      }
      for i := 0 to info.count
        invariant forall k :: 0 <= k < active.Length ==>
                    active[k] == if k < i && k in UpToLevel(info, level) then SetBits(old(active[k]), value, setActive)
                                 else old(active[k])
      {
        if info.levels.value[i] <= level {
          ghost var before := active[..];
          UpdateActiveArray(i, i, value, setActive);
          OneTracePoint(before, info.count, i, value, setActive);
        }
      }
    }

    method SetTracePointGroupTo(names: string, value: bv8, setActive: bool) returns (rc: ErrorCode)
      requires Valid()
      modifies active
      ensures active[..] == Apply(old(active[..]), ByGroup(info, names), value, setActive)
      ensures rc == if info.groups.Some? && AllGroupsFound(info.groups.value, names) then NoError else IllegalArgument
      decreases |names|
    {
      if info.groups.None? {
        ApplyNothing(active[..], value, setActive);
        return IllegalArgument;
      }
      ghost var before := active[..];
      var semicolon := IndexOf(names, ';');
      if semicolon < |names| {
        var name := names[..semicolon];
        NoSemicolon(name);
        rc := SetTracePointGroupTo(name, value, setActive);
        if rc == NoError {
          rc := SetTracePointGroupTo(names[semicolon + 1..], value, setActive);
          ApplyTwice(before, ByGroup(info, name), ByGroup(info, names[semicolon + 1..]), value, setActive);
        } else {
          NotFoundHasNoMembers(info.groups.value, name);
        }
        return;
      }
      var found := SetOneGroup(names, value, setActive);
      rc := if found then NoError else IllegalArgument;
    }

    method SetOneGroup(name: string, value: bv8, setActive: bool) returns (found: bool)
      requires Valid() && info.groups.Some?
      modifies active
      ensures active[..] == Apply(old(active[..]), GroupMembers(info.groups.value, name), value, setActive)
      ensures found == GroupFound(info.groups.value, name)
    {
      var groups := info.groups.value;
      found := false;
      ApplyNothing(active[..], value, setActive);
      assert GroupMembers(groups[..0], name) == {};
      for i := 0 to |groups|
        invariant active[..] == Apply(old(active[..]), GroupMembers(groups[..i], name), value, setActive)
        invariant found == GroupFound(groups[..i], name)
      {
        ghost var members := GroupMembers(groups[..i], name);
        NextGroup(groups, i, name);
        if HasPrefix(name, groups[i].name) {
          found := true;
          SetTracePoints(groups[i].tpids, value, setActive);
          ApplyTwice(old(active[..]), members, Members(groups[i].tpids), value, setActive);
        }
      }
      assert groups[..|groups|] == groups;
    }

    method SetTracePoints(tpids: seq<nat>, value: bv8, setActive: bool)
      requires Valid() && forall t <- tpids :: t < info.count
      modifies active
      ensures active[..] == Apply(old(active[..]), Members(tpids), value, setActive)
    {
      ApplyNothing(active[..], value, setActive);
      assert Members(tpids[..0]) == {};
      for i := 0 to |tpids|
        invariant active[..] == Apply(old(active[..]), Members(tpids[..i]), value, setActive)
      {
        var tpid := tpids[i];
        assert tpid in tpids;
        ghost var before := active[..];
        UpdateActiveArray(tpid, tpid, value, setActive);
        OneTracePoint(before, info.count, tpid, value, setActive);
        assert tpids[..i + 1] == tpids[..i] + [tpid];
        assert Members(tpids[..i + 1]) == Members(tpids[..i]) + {tpid};
        ApplyTwice(old(active[..]), Members(tpids[..i]), {tpid}, value, setActive);
      }
      assert tpids[..|tpids|] == tpids;
    }

    // The component as it is configured by an option that names it.
    method ConfigureByName(cfg: Config) returns (rc: ErrorCode)
      requires Valid() && cfg.Valid()
      modifies active
      ensures active[..] == Apply(old(active[..]), SelectedByName(cfg, info), cfg.value, cfg.setActive)
      ensures rc == ConfigCode(cfg, info)
    {
      var maxTraceId := info.count - 1;
      var first, last := cfg.first, cfg.last;
      if cfg.all {
        first, last := 0, maxTraceId;
      }
      if first > maxTraceId || last > maxTraceId || info.isAuxiliary {
        ApplyNothing(active[..], cfg.value, cfg.setActive);
        return Internal;
      }
      rc := NoError;
      if cfg.group.Some? {
        rc := SetTracePointGroupTo(cfg.group.value, cfg.value, cfg.setActive);
      } else if cfg.level != -1 {
        SetTracePointsByLevelTo(cfg.level, cfg.value, cfg.setActive);
      } else {
        UpdateActiveArray(first, last, cfg.value, cfg.setActive);
      }
    }

    method ConfigureIfNamed(cfg: Config, rc: ErrorCode) returns (rc': ErrorCode)
      requires Valid() && cfg.Valid() && !IsForAll(cfg)
      modifies active
      ensures active[..] == LiveEffect(cfg, info, old(active[..]))
      ensures rc' == if SameName(cfg.name, info.name) then ConfigCode(cfg, info) else rc
    {
      if SameName(cfg.name, info.name) {
        rc' := ConfigureByName(cfg);
      } else {
        rc' := rc;
        ApplyNothing(active[..], cfg.value, cfg.setActive);
      }
    }

    // The component as it is configured by an option for all components.
    method ConfigureAsAll(cfg: Config)
      requires Valid() && cfg.Valid()
      modifies active
      ensures active[..] == Apply(old(active[..]), SelectedAsAll(cfg, info), cfg.value, cfg.setActive)
    {
      if info.isAuxiliary {
        ApplyNothing(active[..], cfg.value, cfg.setActive);
      } else if cfg.level != -1 {
        SetTracePointsByLevelTo(cfg.level, cfg.value, cfg.setActive);
      } else if cfg.group.Some? {
        var _ := SetTracePointGroupTo(cfg.group.value, cfg.value, cfg.setActive);
      } else {
        UpdateActiveArray(0, info.count - 1, cfg.value, cfg.setActive);
      }
    }
  }

  function Members(tpids: seq<nat>): set<nat> {
    set t | t in tpids
  }

  lemma OneTracePoint(active: seq<bv8>, count: nat, i: nat, value: bv8, setActive: bool)
    requires i < count == |active|
    ensures InRange(count, i, i) == {i}
    ensures Apply(active, InRange(count, i, i), value, setActive) == active[i := SetBits(active[i], value, setActive)]
  {
    assert Within(i, i, i);
    assert InRange(count, i, i) == {i};
  }

  lemma NoSemicolon(name: string)
    requires ';' !in name
    ensures IndexOf(name, ';') == |name|
  {
  }

  lemma NotFoundHasNoMembers(groups: seq<Group>, name: string)
    requires !GroupFound(groups, name)
    ensures GroupMembers(groups, name) == {}
  {
  }

  lemma NextGroup(groups: seq<Group>, i: nat, name: string)
    requires i < |groups|
    ensures GroupMembers(groups[..i + 1], name)
         == GroupMembers(groups[..i], name) + (if HasPrefix(name, groups[i].name) then Members(groups[i].tpids) else {})
    ensures GroupFound(groups[..i + 1], name) == (GroupFound(groups[..i], name) || HasPrefix(name, groups[i].name))
  {
    assert groups[..i + 1] == groups[..i] + [groups[i]];
    assert groups[i] in groups[..i + 1];
  }

  class ComponentList {
    var components: seq<ComponentData>
    var deferred: seq<Config>

    constructor ()
      ensures Valid() && components == [] && deferred == []
    {
      components, deferred := [], [];
    }

    // No two components have the same name, or share the bytes of their trace points.
    ghost predicate Valid()
      reads this
    {
      && (forall c <- components :: c.Valid())
      && (forall cfg <- deferred :: cfg.Valid())
      && (forall i, j :: 0 <= i < j < |components| ==>
            && components[i].active != components[j].active
            && !SameName(components[i].info.name, components[j].info.name))
    }

    ghost function Arrays(): set<array<bv8>>
      reads this
    {
      set c | c in components :: c.active
    }

    ghost function ComponentAt(i: nat): Component
      requires i < |components|
      reads this, components[i].active
    {
      Component(components[i].info, components[i].active[..])
    }

    ghost function Snapshot(): Registry
      reads this, Arrays()
    {
      Registry(seq(|components|, i requires 0 <= i < |components| reads this, Arrays() =>
                 assert components[i] in components; ComponentAt(i)), deferred)
    }

    method FindComponent(name: string) returns (found: bool)
      ensures found <==> Registered(Snapshot().components, name)
    {
      found := false;
      for i := 0 to |components|
        invariant found <==> exists j :: 0 <= j < i && SameName(name, components[j].info.name)
      {
        if SameName(name, components[i].info.name) {
          found := true;
        }
      }
      ghost var cs := Snapshot().components;
      if found {
        var j :| 0 <= j < |components| && SameName(name, components[j].info.name);
        assert cs[j] in cs;
      }
    }

    method AddDeferredConfigToList(cfg: Config)
      requires Valid() && cfg.Valid()
      modifies this`deferred
      ensures Valid() && deferred == old(deferred) + [cfg]
    {
      deferred := deferred + [cfg];
    }

    method SetTracePointsForComponent(cfg: Config) returns (rc: ErrorCode)
      requires Valid() && cfg.Valid()
      modifies this`deferred, Arrays()
      ensures Valid() && Snapshot() == SetOption(old(Snapshot()), cfg)
      ensures IsForAll(cfg) || !Registered(old(Snapshot()).components, cfg.name) ==> rc == NoError
      ensures !IsForAll(cfg) ==> forall c <- components :: SameName(cfg.name, c.info.name) ==> rc == ConfigCode(cfg, c.info)
    {
      rc := NoError;
      var found := FindComponent(cfg.name);
      if IsForAll(cfg) {
        AddDeferredConfigToList(cfg);
        ConfigureAll(cfg);
      } else if !found {
        NobodyNamed(cfg);
        NothingNamed(cfg);
        AddDeferredConfigToList(cfg);
      } else {
        rc := ConfigureNamed(cfg);
      }
    }

    lemma NobodyNamed(cfg: Config)
      requires !Registered(Snapshot().components, cfg.name)
      ensures forall c <- components :: !SameName(cfg.name, c.info.name)
    {
      forall c | c in components ensures !SameName(cfg.name, c.info.name) {
        var j :| 0 <= j < |components| && components[j] == c;
        assert Snapshot().components[j] in Snapshot().components;
      }
    }

    lemma NothingNamed(cfg: Config)
      requires !IsForAll(cfg) && !Registered(Snapshot().components, cfg.name)
      ensures forall j :: 0 <= j < |components| ==> LiveComponent(ComponentAt(j), cfg) == ComponentAt(j)
    {
      forall j | 0 <= j < |components| ensures LiveComponent(ComponentAt(j), cfg) == ComponentAt(j) {
        assert Snapshot().components[j] in Snapshot().components;
        ApplyNothing(ComponentAt(j).active, cfg.value, cfg.setActive);
      }
    }

    method ConfigureAll(cfg: Config)
      requires Valid() && cfg.Valid() && IsForAll(cfg)
      modifies Arrays()
      ensures forall j :: 0 <= j < |components| ==> ComponentAt(j) == LiveComponent(old(ComponentAt(j)), cfg)
    {
      for i := 0 to |components|
        invariant forall j :: 0 <= j < i ==>
                    components[j].active[..] == LiveEffect(cfg, components[j].info, old(components[j].active[..]))
        invariant forall j :: i <= j < |components| ==> components[j].active[..] == old(components[j].active[..])
      {
        assert components[i] in components;
        components[i].ConfigureAsAll(cfg);
      }
    }

    method ConfigureNamed(cfg: Config) returns (rc: ErrorCode)
      requires Valid() && cfg.Valid() && !IsForAll(cfg)
      modifies Arrays()
      ensures forall j :: 0 <= j < |components| ==> ComponentAt(j) == LiveComponent(old(ComponentAt(j)), cfg)
      ensures forall c <- components :: SameName(cfg.name, c.info.name) ==> rc == ConfigCode(cfg, c.info)
    {
      rc := NoError;
      for i := 0 to |components|
        invariant forall j :: 0 <= j < i ==>
                    components[j].active[..] == LiveEffect(cfg, components[j].info, old(components[j].active[..]))
        invariant forall j :: i <= j < |components| ==> components[j].active[..] == old(components[j].active[..])
        invariant rc == NamedCode(cfg, components, i)
      {
        assert components[i] in components;
        rc := components[i].ConfigureIfNamed(cfg, rc);
      }
      OnlyOneNamed(cfg);
    }

    lemma OnlyOneNamed(cfg: Config)
      requires Valid()
      ensures forall c <- components :: SameName(cfg.name, c.info.name) ==>
                NamedCode(cfg, components, |components|) == ConfigCode(cfg, c.info)
    {
      forall c | c in components && SameName(cfg.name, c.info.name)
        ensures NamedCode(cfg, components, |components|) == ConfigCode(cfg, c.info)
      {
        var i :| 0 <= i < |components| && components[i] == c;
        NamedCodeIs(cfg, components, |components|, i);
      }
    }

    method AddComponentToList(c: ComponentData)
      requires Valid() && c.Valid() && c.active !in Arrays()
      requires forall d <- components :: !SameName(d.info.name, c.info.name)
      modifies this`components
      ensures Valid() && components == old(components) + [c]
    {
      components := components + [c];
    }

    // The options kept so far are applied to a component that has just been added.
    method ProcessComponentDeferredConfig(c: ComponentData) returns (rc: ErrorCode)
      requires Valid() && components != [] && c == components[|components| - 1]
      modifies this`deferred, Arrays()
      ensures rc == ReplayCode(old(deferred), c.info)
      ensures Valid() && Snapshot() == WithLast(old(Snapshot()), Replay(old(deferred), c.info, old(c.active[..])))
    {
      ghost var before := Snapshot();
      var kept := deferred;
      rc := NoError;
      for i := 0 to |kept|
        invariant rc == ReplayCode(kept[..i], c.info)
        invariant Valid() && Arrays() == old(Arrays()) && deferred == kept
        invariant c.active[..] == Replay(kept[..i], c.info, old(c.active[..]))
        invariant Snapshot() == WithLast(before, c.active[..])
      {
        assert kept[i] in kept;
        ghost var active := c.active[..];
        ReplayNext(kept, i, c.info, old(c.active[..]));
        var err := ApplyKept(c, kept[i]);
        if err != NoError {
          rc := err;
        }
        WithLastTwice(before, active, c.active[..]);
      }
      assert kept[..|kept|] == kept;
    }

    // The error that is reported, if any.
    method ApplyKept(c: ComponentData, cfg: Config) returns (err: ErrorCode)
      requires Valid() && components != [] && c == components[|components| - 1] && cfg.Valid()
      modifies this`deferred, Arrays()
      ensures Valid() && deferred == old(deferred)
      ensures err == NextCode(NoError, cfg, c.info)
      ensures c.active[..] == DeferredEffect(cfg, c.info, old(c.active[..]))
      ensures Snapshot() == WithLast(old(Snapshot()), c.active[..])
    {
      ghost var before := Snapshot();
      ghost var n := |components| - 1;
      assert c in components && before.components[n] == ComponentAt(n);
      err := NoError;
      if SameName(cfg.name, ALL) || SameName(cfg.name, c.info.name) {
        DistinctSnapshot();
        SetOptionOnLast(before, cfg);
        SameNameReflexive(c.info.name);
        var rc := SetTracePointsForComponent(cfg.(name := c.info.name));
        if !SameName(cfg.name, ALL) {
          err := rc;
        }
        assert Snapshot().components[n] == ComponentAt(n);
      } else {
        ApplyNothing(c.active[..], cfg.value, cfg.setActive);
      }
    }

    lemma DistinctSnapshot()
      requires Valid()
      ensures DistinctNames(Snapshot().components)
    {
    }

    // Registering a component.
    method RegisterComponent(c: ComponentData) returns (rc: ErrorCode)
      requires Valid() && c.Valid() && c.active !in Arrays()
      requires forall d <- components :: !SameName(d.info.name, c.info.name)
      modifies this, Arrays(), c.active
      ensures Valid() && Snapshot() == Register(old(Snapshot()), c.info, old(c.active[..]))
      ensures rc == ReplayCode(old(deferred), c.info)
    {
      ghost var before := Snapshot();
      AddComponentToList(c);
      assert Snapshot() == Registry(before.components + [Component(c.info, c.active[..])], before.deferred);
      rc := ProcessComponentDeferredConfig(c);
    }
  }

  // What an option for one component returns once it has been tried on the first `n`.
  function NamedCode(cfg: Config, components: seq<ComponentData>, n: nat): ErrorCode
    requires n <= |components|
  {
    if n == 0 then NoError
    else if SameName(cfg.name, components[n - 1].info.name) then ConfigCode(cfg, components[n - 1].info)
    else NamedCode(cfg, components, n - 1)
  }

  lemma {:induction false} NamedCodeIs(cfg: Config, components: seq<ComponentData>, n: nat, i: nat)
    requires i < n <= |components| && SameName(cfg.name, components[i].info.name)
    requires forall j, k :: 0 <= j < k < |components| ==> !SameName(components[j].info.name, components[k].info.name)
    ensures NamedCode(cfg, components, n) == ConfigCode(cfg, components[i].info)
  {
    if i < n - 1 {
      if SameName(cfg.name, components[n - 1].info.name) {
        SameNameTransitive(cfg.name, components[i].info.name, components[i].info.name);
        SameNameTransitive(components[i].info.name, cfg.name, components[n - 1].info.name);
      }
      NamedCodeIs(cfg, components, n - 1, i);
    }
  }

  // ---------- Steps on values ----------

  predicate DistinctNames(components: seq<Component>) {
    forall i, j :: 0 <= i < j < |components| ==> !SameName(components[i].info.name, components[j].info.name)
  }

  function WithLast(r: Registry, active: seq<bv8>): Registry
    requires r.components != []
  {
    var n := |r.components| - 1;
    r.(components := r.components[n := r.components[n].(active := active)])
  }

  lemma ReplayNext(kept: seq<Config>, i: nat, info: ModuleInfo, active: seq<bv8>)
    requires i < |kept|
    ensures Replay(kept[..i + 1], info, active) == DeferredEffect(kept[i], info, Replay(kept[..i], info, active))
    ensures ReplayCode(kept[..i + 1], info) == NextCode(ReplayCode(kept[..i], info), kept[i], info)
  {
    assert kept[..i + 1][..i] == kept[..i];
  }

  lemma WithLastTwice(r: Registry, active: seq<bv8>, active': seq<bv8>)
    requires r.components != []
    ensures WithLast(WithLast(r, active), active') == WithLast(r, active')
  {
  }

  lemma SameNameReflexive(a: string)
    ensures SameName(a, a)
  {
  }

  lemma SameNameTransitive(a: string, b: string, c: string)
    requires SameName(a, b) && SameName(b, c)
    ensures SameName(a, c) && SameName(b, a)
  {
  }

  // Applying a kept option by the name of the newest component changes that component
  // alone, and keeps nothing.
  lemma SetOptionOnLast(r: Registry, cfg: Config)
    requires r.components != [] && DistinctNames(r.components)
    requires var c := r.components[|r.components| - 1]; Configurable(c.info) && AppliesLater(cfg, c.info)
    ensures var c := r.components[|r.components| - 1];
            SetOption(r, cfg.(name := c.info.name)) == WithLast(r, DeferredEffect(cfg, c.info, c.active))
  {
    var n := |r.components| - 1;
    var c := r.components[n];
    var cfg' := cfg.(name := c.info.name);
    SameNameReflexive(c.info.name);
    assert c in r.components;
    assert !IsForAll(cfg') && Registered(r.components, cfg'.name);
    NamedSelection(cfg, c.info);
    forall i | 0 <= i < n ensures LiveComponent(r.components[i], cfg') == r.components[i] {
      OtherComponent(cfg', r.components[i]);
    }
    assert SetOption(r, cfg').components == WithLast(r, DeferredEffect(cfg, c.info, c.active)).components;
  }

  lemma NamedSelection(cfg: Config, info: ModuleInfo)
    requires Configurable(info) && AppliesLater(cfg, info)
    ensures LiveSelection(cfg.(name := info.name), info) == DeferredSelection(cfg, info)
  {
    SameNameReflexive(info.name);
  }

  lemma OtherComponent(cfg: Config, c: Component)
    requires !IsForAll(cfg) && !SameName(c.info.name, cfg.name)
    ensures LiveComponent(c, cfg) == c
  {
    if SameName(cfg.name, c.info.name) {
      SameNameTransitive(cfg.name, c.info.name, cfg.name);
    }
    ApplyNothing(c.active, cfg.value, cfg.setActive);
  }
}
