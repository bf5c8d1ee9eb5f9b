/** What one trace option does to the trace points of one component
    (omrtracecomponent.cpp).  An option is applied to the components that are
    registered; it may also be kept and applied again to components that register
    later, and the two ways do not select trace points in quite the same manner. */
module TraceConfig {
  import opened Wrappers
  import opened CStrings

  datatype ErrorCode = NoError | IllegalArgument | Internal

  // ---------- Names ----------

  function Lower(c: char): char {
    if 'A' <= c <= 'Z' then (c as int - 'A' as int + 'a' as int) as char else c
  }

  // stricmp(a, b) == 0
  predicate SameName(a: string, b: string) {
    |a| == |b| && forall i :: 0 <= i < |a| ==> Lower(a[i]) == Lower(b[i])
  }

  // strnicmp(name, prefix, strlen(prefix)) == 0
  predicate HasPrefix(name: string, prefix: string) {
    |prefix| <= |name| && SameName(name[..|prefix|], prefix)
  }

  const ALL := "ALL"

  // ---------- Components and options ----------

  datatype Group = Group(name: string, tpids: seq<nat>)

  datatype ModuleInfo = ModuleInfo(
    name: string,
    count: nat,
    levels: Option<seq<nat>>,
    groups: Option<seq<Group>>,
    isAuxiliary: bool)
  {
    predicate Valid() {
      && (levels.Some? ==> |levels.value| == count)
      && (groups.Some? ==> forall g <- groups.value :: forall t <- g.tpids :: t < count)
    }
  }

  datatype Config = Config(
    name: string,
    all: bool,
    first: nat,
    last: int,
    value: bv8,
    level: int,
    group: Option<string>,
    setActive: bool)
  {
    // -1 stands for no level.
    predicate Valid() {
      level >= -1
    }
  }

  // ---------- The bytes of the trace points ----------

  function SetBits(b: bv8, value: bv8, setActive: bool): bv8 {
    if value == 0 then 0 else if setActive then b | value else b & !value
  }

  function Apply(active: seq<bv8>, selected: set<nat>, value: bv8, setActive: bool): (r: seq<bv8>)
    ensures |r| == |active|
    ensures forall i :: 0 <= i < |r| ==>
              r[i] == if i in selected then SetBits(active[i], value, setActive) else active[i]
  {
    seq(|active|, i requires 0 <= i < |active| => if i in selected then SetBits(active[i], value, setActive) else active[i])
  }

  // Setting trace points twice is setting them once, so the order in which the trace
  // points of an option are visited does not matter.
  lemma ApplyTwice(active: seq<bv8>, s: set<nat>, t: set<nat>, value: bv8, setActive: bool)
    ensures Apply(Apply(active, s, value, setActive), t, value, setActive) == Apply(active, s + t, value, setActive)
  {
    forall i | 0 <= i < |active|
      ensures Apply(Apply(active, s, value, setActive), t, value, setActive)[i] == Apply(active, s + t, value, setActive)[i]
    {
      SetBitsTwice(active[i], value, setActive);
    }
  }

  lemma SetBitsTwice(b: bv8, value: bv8, setActive: bool)
    ensures SetBits(SetBits(b, value, setActive), value, setActive) == SetBits(b, value, setActive)
  {
  }

  lemma ApplyNothing(active: seq<bv8>, value: bv8, setActive: bool)
    ensures Apply(active, {}, value, setActive) == active
  {
  }

  // ---------- What an option selects ----------

  predicate Within(i: nat, first: nat, last: int) {
    first <= i <= last
  }

  function InRange(count: nat, first: nat, last: int): set<nat> {
    set i: nat | i < count && Within(i, first, last)
  }

  function UpToLevel(info: ModuleInfo, level: int): set<nat> {
    if info.levels.None? then {} else set i: nat | i < |info.levels.value| && info.levels.value[i] <= level
  }

  predicate GroupFound(groups: seq<Group>, name: string) {
    exists g <- groups :: HasPrefix(name, g.name)
  }

  function GroupMembers(groups: seq<Group>, name: string): set<nat> {
    set g, t | g in groups && HasPrefix(name, g.name) && t in g.tpids :: t
  }

  // The trace points of a list of groups separated by ';', up to the first group that
  // the component does not have.
  function GroupSelection(groups: seq<Group>, names: string): set<nat>
    decreases |names|
  {
    var i := IndexOf(names, ';');
    if i == |names| then GroupMembers(groups, names)
    else if !GroupFound(groups, names[..i]) then {}
    else GroupMembers(groups, names[..i]) + GroupSelection(groups, names[i + 1..])
  }

  predicate AllGroupsFound(groups: seq<Group>, names: string)
    decreases |names|
  {
    var i := IndexOf(names, ';');
    if i == |names| then GroupFound(groups, names)
    else GroupFound(groups, names[..i]) && AllGroupsFound(groups, names[i + 1..])
  }

  function ByGroup(info: ModuleInfo, names: string): set<nat> {
    if info.groups.None? then {} else GroupSelection(info.groups.value, names)
  }

  // An option for all components, applied to one that is registered: the level goes
  // before the group, and the range is the whole component.
  function SelectedAsAll(cfg: Config, info: ModuleInfo): set<nat> {
    if info.isAuxiliary then {}
    else if cfg.level != -1 then UpToLevel(info, cfg.level)
    else if cfg.group.Some? then ByGroup(info, cfg.group.value)
    else InRange(info.count, 0, info.count - 1)
  }

  // An option for one component: the range is checked, and the group goes before the
  // level.
  predicate Rejected(cfg: Config, info: ModuleInfo) {
    var first, last := if cfg.all then 0 else cfg.first, if cfg.all then info.count - 1 else cfg.last;
    first > info.count - 1 || last > info.count - 1 || info.isAuxiliary
  }

  function SelectedByName(cfg: Config, info: ModuleInfo): set<nat> {
    if Rejected(cfg, info) then {}
    else if cfg.group.Some? then ByGroup(info, cfg.group.value)
    else if cfg.level != -1 then UpToLevel(info, cfg.level)
    else if cfg.all then InRange(info.count, 0, info.count - 1)
    else InRange(info.count, cfg.first, cfg.last)
  }

  predicate IsForAll(cfg: Config) {
    HasPrefix(cfg.name, ALL)
  }

  // What an option does to a component that is registered when the option is set ...
  function LiveSelection(cfg: Config, info: ModuleInfo): set<nat> {
    if IsForAll(cfg) then SelectedAsAll(cfg, info)
    else if SameName(cfg.name, info.name) then SelectedByName(cfg, info)
    else {}
  }

  function LiveEffect(cfg: Config, info: ModuleInfo, active: seq<bv8>): seq<bv8> {
    Apply(active, LiveSelection(cfg, info), cfg.value, cfg.setActive)
  }

  // ... and to one that registers afterwards.
  predicate AppliesLater(cfg: Config, info: ModuleInfo) {
    SameName(cfg.name, ALL) || SameName(cfg.name, info.name)
  }

  function DeferredSelection(cfg: Config, info: ModuleInfo): set<nat> {
    if AppliesLater(cfg, info) then SelectedByName(cfg, info) else {}
  }

  function DeferredEffect(cfg: Config, info: ModuleInfo, active: seq<bv8>): seq<bv8> {
    Apply(active, DeferredSelection(cfg, info), cfg.value, cfg.setActive)
  }

  // ---------- When the two agree ----------

  // An option for all components must be named exactly so, must not combine a level
  // with a group, and must be set for all trace points, except that the range is of no
  // account when it is 0 and a level or a group selects.
  predicate Uniform(cfg: Config) {
    IsForAll(cfg) ==>
      && SameName(cfg.name, ALL)
      && !(cfg.level != -1 && cfg.group.Some?)
      && (cfg.all || ((cfg.level != -1 || cfg.group.Some?) && cfg.first == 0 && cfg.last <= 0))
  }

  // Components whose name does not start with "all".
  predicate Configurable(info: ModuleInfo) {
    info.Valid() && !HasPrefix(info.name, ALL)
  }

  // A uniform option has the same effect on a component whether the component
  // registered before or after the option was set.
  lemma UniformAgrees(cfg: Config, info: ModuleInfo)
    requires Uniform(cfg) && Configurable(info)
    ensures LiveSelection(cfg, info) == DeferredSelection(cfg, info)
  {
    if IsForAll(cfg) {
      assert !SameName(cfg.name, info.name) by {
        if SameName(cfg.name, info.name) {
          assert SameName(info.name[..3], ALL);
        }
      }
      if info.count == 0 {
        SelectsNothing(cfg, info);
      }
    } else {
      assert !SameName(cfg.name, ALL) by {
        assert |cfg.name| == 3 ==> cfg.name[..3] == cfg.name;
      }
    }
  }

  lemma SelectsNothing(cfg: Config, info: ModuleInfo)
    requires info.Valid() && info.count == 0
    ensures SelectedAsAll(cfg, info) == {} == SelectedByName(cfg, info)
  {
    if info.groups.Some? && cfg.group.Some? {
      GroupsInRange(info.groups.value, cfg.group.value, 0);
    }
  }

  lemma {:induction false} GroupsInRange(groups: seq<Group>, names: string, count: nat)
    requires forall g <- groups :: forall t <- g.tpids :: t < count
    ensures forall t <- GroupSelection(groups, names) :: t < count
    decreases |names|
  {
    var i := IndexOf(names, ';');
    if i < |names| {
      GroupsInRange(groups, names[i + 1..], count);
    }
  }

  // The converse: any other option is treated differently by some component, for some
  // state of its trace points.
  lemma OthersDisagree(cfg: Config) returns (info: ModuleInfo, active: seq<bv8>)
    requires cfg.Valid() && !Uniform(cfg)
    ensures Configurable(info) && |active| == info.count
    ensures LiveEffect(cfg, info, active) != DeferredEffect(cfg, info, active)
  {
    var t: nat;
    info, t := OthersSelectElse(cfg);
    active := seq(info.count, _ => DistinguishingByte(cfg));
    assert LiveEffect(cfg, info, active)[t] != DeferredEffect(cfg, info, active)[t];
  }

  lemma OthersSelectElse(cfg: Config) returns (info: ModuleInfo, t: nat)
    requires cfg.Valid() && !Uniform(cfg)
    ensures Configurable(info) && t < info.count
    ensures t in LiveSelection(cfg, info) <==> t !in DeferredSelection(cfg, info)
  {
    if cfg.level == -1 && cfg.group.None? && SameName(cfg.name, ALL) {
      t := if cfg.last > cfg.first then cfg.last + 1 else cfg.first + 1;
      info := ModuleInfo("", t + 1, None, None, false);
      RangeDisagrees(cfg, info);
    } else if BothKindsRead(cfg) {
      t, info := 0, ModuleInfo("", 1, None, Some(UnnamedGroup()), false);
      OnlyDeferredSelects(cfg, info);
    } else {
      t, info := 0, ModuleInfo("", 1, Some([0]), Some(UnnamedGroup()), false);
      OnlyLiveSelects(cfg, info);
    }
  }

  // The option has a level and a group, and passes the range check of a component with
  // one trace point.
  predicate BothKindsRead(cfg: Config) {
    && SameName(cfg.name, ALL) && cfg.level != -1 && cfg.group.Some?
    && (cfg.all || (cfg.first == 0 && cfg.last <= 0))
  }

  // A group without a name is found under any name.
  function UnnamedGroup(): seq<Group> {
    [Group("", [0])]
  }

  lemma RangeDisagrees(cfg: Config, info: ModuleInfo)
    requires cfg.Valid() && !Uniform(cfg)
    requires cfg.level == -1 && cfg.group.None? && SameName(cfg.name, ALL)
    requires info.count >= 1 && !info.isAuxiliary && cfg.first < info.count - 1 && cfg.last < info.count - 1
    ensures info.count - 1 in LiveSelection(cfg, info) && info.count - 1 !in DeferredSelection(cfg, info)
  {
    assert Within(info.count - 1, 0, info.count - 1);
  }

  lemma OnlyDeferredSelects(cfg: Config, info: ModuleInfo)
    requires cfg.Valid() && !Uniform(cfg) && BothKindsRead(cfg)
    requires info == ModuleInfo("", 1, None, Some(UnnamedGroup()), false)
    ensures 0 in DeferredSelection(cfg, info) && 0 !in LiveSelection(cfg, info)
  {
    UnnamedGroupMatches(UnnamedGroup(), cfg.group.value);
  }

  lemma OnlyLiveSelects(cfg: Config, info: ModuleInfo)
    requires cfg.Valid() && !Uniform(cfg) && !BothKindsRead(cfg)
    requires !(cfg.level == -1 && cfg.group.None? && SameName(cfg.name, ALL))
    requires info == ModuleInfo("", 1, Some([0]), Some(UnnamedGroup()), false)
    ensures 0 in LiveSelection(cfg, info) && 0 !in DeferredSelection(cfg, info)
  {
    assert Within(0, 0, 0);
    if cfg.group.Some? {
      UnnamedGroupMatches(UnnamedGroup(), cfg.group.value);
    }
  }

  function DistinguishingByte(cfg: Config): (b: bv8)
    ensures SetBits(b, cfg.value, cfg.setActive) != b
  {
    if cfg.value == 0 then 1 else if cfg.setActive then 0 else cfg.value
  }

  lemma {:induction false} UnnamedGroupMatches(groups: seq<Group>, names: string)
    requires groups == UnnamedGroup()
    ensures GroupSelection(groups, names) == {0}
    decreases |names|
  {
    var i := IndexOf(names, ';');
    UnnamedGroupHasAnyName(names[..i]);
    if i == |names| {
      assert names[..i] == names;
    } else {
      UnnamedGroupMatches(groups, names[i + 1..]);
    }
  }

  lemma UnnamedGroupHasAnyName(name: string)
    ensures GroupFound(UnnamedGroup(), name) && GroupMembers(UnnamedGroup(), name) == {0}
  {
    var groups := UnnamedGroup();
    assert groups[0] in groups && HasPrefix(name, groups[0].name) && groups[0].tpids == [0] && 0 in groups[0].tpids;
    assert 0 in GroupMembers(groups, name);
    forall t | t in GroupMembers(groups, name) ensures t == 0 {
      var g :| g in groups && HasPrefix(name, g.name) && t in g.tpids;
      assert g == groups[0];
    }
  }

  // An option has the same effect at any time exactly when it is uniform.
  lemma UniformExactly(cfg: Config)
    requires cfg.Valid()
    ensures Uniform(cfg) <==>
              forall info: ModuleInfo, active: seq<bv8> :: Configurable(info) && |active| == info.count ==>
                LiveEffect(cfg, info, active) == DeferredEffect(cfg, info, active)
  {
    if Uniform(cfg) {
      forall info: ModuleInfo, active: seq<bv8> | Configurable(info) && |active| == info.count
        ensures LiveEffect(cfg, info, active) == DeferredEffect(cfg, info, active)
      {
        UniformAgrees(cfg, info);
      }
    } else {
      var info, active := OthersDisagree(cfg);
    }
  }
}
