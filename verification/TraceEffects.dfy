/** What trace options do to single trace points and their bits. */
module TraceEffects {
  import opened Wrappers
  import opened CStrings
  import opened TraceConfig
  import opened TraceComponents
  import opened TraceRegistration

  // ---------- One byte ----------

  // Without a value the byte is cleared. Otherwise the bits of the value are switched on or
  // off, and all others are left as they are.
  ghost predicate IsSwitched(old': bv8, new': bv8, value: bv8, setActive: bool) {
    if value == 0 then new' == 0
    else new' & !value == old' & !value && new' & value == if setActive then value else 0
  }

  lemma BitsAreSwitched(b: bv8, value: bv8, setActive: bool)
    ensures IsSwitched(b, SetBits(b, value, setActive), value, setActive)
  {
  }

  // An option, applied at once or later, switches the bits of the trace points that it
  // selects, and leaves all others alone.
  lemma EffectOnTracePoint(cfg: Config, info: ModuleInfo, active: seq<bv8>, t: nat)
    requires t < |active|
    ensures var r := LiveEffect(cfg, info, active);
            && |r| == |active|
            && if t in LiveSelection(cfg, info) then IsSwitched(active[t], r[t], cfg.value, cfg.setActive) else r[t] == active[t]
    ensures var r := DeferredEffect(cfg, info, active);
            && |r| == |active|
            && if t in DeferredSelection(cfg, info) then IsSwitched(active[t], r[t], cfg.value, cfg.setActive) else r[t] == active[t]
  {
    BitsAreSwitched(active[t], cfg.value, cfg.setActive);
  }

  // ---------- The trace points that are selected ----------

  // Which options are for all components.
  lemma ForAllByName(cfg: Config, rest: string)
    ensures IsForAll(cfg.(name := "all" + rest)) && IsForAll(cfg.(name := "ALL" + rest)) && IsForAll(cfg.(name := "All" + rest))
    ensures !IsForAll(cfg.(name := "")) && !IsForAll(cfg.(name := "al")) && !IsForAll(cfg.(name := "j9vm"))
  {
    assert ("all" + rest)[..3] == "all" && ("ALL" + rest)[..3] == "ALL" && ("All" + rest)[..3] == "All";
    assert "j9vm"[..3][0] == 'j';
  }

  // A range selects the trace points in it, if all of it is in the component.
  lemma RangeSelects(cfg: Config, info: ModuleInfo, t: nat)
    requires cfg.group.None? && cfg.level == -1 && !cfg.all && !IsForAll(cfg)
    ensures t in LiveSelection(cfg, info)
            <==> SameName(cfg.name, info.name) && !info.isAuxiliary && cfg.first <= t <= cfg.last < info.count
  {
    assert t in InRange(info.count, cfg.first, cfg.last) <==> t < info.count && Within(t, cfg.first, cfg.last);
  }

  // Without a range, a level or a group, a component is selected as a whole.
  lemma AllSelects(cfg: Config, info: ModuleInfo, t: nat)
    requires cfg.group.None? && cfg.level == -1 && cfg.all
    ensures t in LiveSelection(cfg, info)
            <==> (IsForAll(cfg) || SameName(cfg.name, info.name)) && !info.isAuxiliary && t < info.count
  {
    assert t in InRange(info.count, 0, info.count - 1) <==> t < info.count && Within(t, 0, info.count - 1);
  }

  // A level selects a trace point from its own level on.
  lemma LevelSelects(cfg: Config, info: ModuleInfo, t: nat)
    requires cfg.group.None? && cfg.level >= 0 && cfg.all && info.Valid() && info.levels.Some? && t < info.count
    requires (IsForAll(cfg) || SameName(cfg.name, info.name)) && !info.isAuxiliary
    ensures t in LiveSelection(cfg.(level := info.levels.value[t]), info)
    ensures t in LiveSelection(cfg, info) ==> t in LiveSelection(cfg.(level := cfg.level + 1), info)
    ensures info.levels.value[t] > 0 ==> t !in LiveSelection(cfg.(level := info.levels.value[t] - 1), info)
  {
  }

  // The names in a list that is separated by ';'.
  function NamesIn(names: string): (ns: seq<string>)
    decreases |names|
  {
    var i := IndexOf(names, ';');
    if i == |names| then [names] else [names[..i]] + NamesIn(names[i + 1..])
  }

  predicate HasTracePoint(groups: seq<Group>, name: string, t: nat) {
    exists g <- groups :: HasPrefix(name, g.name) && t in g.tpids
  }

  // The trace point is in the i-th of these groups, and the ones before are there.
  ghost predicate ReachedAt(groups: seq<Group>, ns: seq<string>, t: nat, i: nat) {
    i < |ns| && HasTracePoint(groups, ns[i], t) && forall j :: 0 <= j < i ==> GroupFound(groups, ns[j])
  }

  ghost predicate Reached(groups: seq<Group>, ns: seq<string>, t: nat) {
    exists i: nat :: ReachedAt(groups, ns, t, i)
  }

  lemma ReachedFirst(groups: seq<Group>, n: string, ns: seq<string>, t: nat)
    ensures Reached(groups, [n] + ns, t)
            <==> HasTracePoint(groups, n, t) || (GroupFound(groups, n) && Reached(groups, ns, t))
  {
    var all := [n] + ns;
    if HasTracePoint(groups, n, t) {
      assert ReachedAt(groups, all, t, 0);
    } else if GroupFound(groups, n) && Reached(groups, ns, t) {
      var i: nat :| ReachedAt(groups, ns, t, i);
      forall j | 0 <= j < i + 1 ensures GroupFound(groups, all[j]) {
        assert j > 0 ==> all[j] == ns[j - 1];
      }
      assert ReachedAt(groups, all, t, i + 1);
    } else if Reached(groups, all, t) {
      var i: nat :| ReachedAt(groups, all, t, i);
      assert all[0] == n;
      forall j | 0 <= j < i - 1 ensures GroupFound(groups, ns[j]) {
        assert ns[j] == all[j + 1];
      }
      assert ReachedAt(groups, ns, t, i - 1);
    }
  }

  lemma MembersExactly(groups: seq<Group>, name: string, t: nat)
    ensures t in GroupMembers(groups, name) <==> HasTracePoint(groups, name, t)
    ensures HasTracePoint(groups, name, t) ==> GroupFound(groups, name)
  {
  }

  // A list of groups selects the trace points of each that comes before the first one
  // that is missing.
  lemma {:induction false} GroupsSelect(groups: seq<Group>, names: string, t: nat)
    ensures t in GroupSelection(groups, names) <==> Reached(groups, NamesIn(names), t)
    decreases |names|
  {
    var k := IndexOf(names, ';');
    MembersExactly(groups, names[..k], t);
    if k == |names| {
      assert [names] + [] == [names] && names[..k] == names;
      ReachedFirst(groups, names, [], t);
    } else {
      GroupsSelect(groups, names[k + 1..], t);
      ReachedFirst(groups, names[..k], NamesIn(names[k + 1..]), t);
    }
  }

  predicate AllFound(groups: seq<Group>, ns: seq<string>) {
    forall i :: 0 <= i < |ns| ==> GroupFound(groups, ns[i])
  }

  lemma AllFoundFirst(groups: seq<Group>, n: string, ns: seq<string>)
    ensures AllFound(groups, [n] + ns) <==> GroupFound(groups, n) && AllFound(groups, ns)
  {
    var all := [n] + ns;
    if AllFound(groups, all) {
      assert all[0] == n;
      forall i | 0 <= i < |ns| ensures GroupFound(groups, ns[i]) {
        assert all[i + 1] == ns[i];
      }
    }
  }

  // The code says whether all groups of the list have been found.
  lemma {:induction false} AllFoundExactly(groups: seq<Group>, names: string)
    ensures AllGroupsFound(groups, names) <==> AllFound(groups, NamesIn(names))
    decreases |names|
  {
    var k := IndexOf(names, ';');
    if k == |names| {
      assert [names] + [] == [names];
      AllFoundFirst(groups, names, []);
    } else {
      AllFoundExactly(groups, names[k + 1..]);
      AllFoundFirst(groups, names[..k], NamesIn(names[k + 1..]));
    }
  }

  // ---------- Return codes ----------

  // Replaying is without an error if and only if all options that name the component are.
  lemma {:induction false} ReplaySucceedsExactly(configs: seq<Config>, info: ModuleInfo)
    ensures ReplayCode(configs, info) == NoError
            <==> forall cfg <- configs :: !SameName(cfg.name, ALL) && SameName(cfg.name, info.name) ==> ConfigCode(cfg, info) == NoError
  {
    if configs != [] {
      var n := |configs| - 1;
      ReplaySucceedsExactly(configs[..n], info);
      assert configs[n] in configs;
      assert forall cfg :: cfg in configs <==> cfg in configs[..n] || cfg == configs[n];
    }
  }

  // An option that is out of range changes nothing.
  lemma RejectedSelectsNothing(cfg: Config, info: ModuleInfo)
    ensures ConfigCode(cfg, info) == Internal ==> SelectedByName(cfg, info) == {}
    ensures ConfigCode(cfg, info) == Internal
            <==> info.isAuxiliary || (if cfg.all then info.count == 0 else cfg.first >= info.count || cfg.last >= info.count)
  {
  }

  // One that is not is in error if and only if it names a group that is missing.
  lemma MissingGroupIsReported(cfg: Config, info: ModuleInfo)
    requires ConfigCode(cfg, info) != Internal
    ensures ConfigCode(cfg, info) == IllegalArgument
            <==> && cfg.group.Some?
                 && (info.groups.None? || !AllFound(info.groups.value, NamesIn(cfg.group.value)))
    ensures ConfigCode(cfg, info) == IllegalArgument || ConfigCode(cfg, info) == NoError
  {
    if cfg.group.Some? && info.groups.Some? {
      AllFoundExactly(info.groups.value, cfg.group.value);
    }
  }

  // ---------- Runs ----------

  predicate OneBit(bit: bv8) {
    bit != 0 && bit & (bit - 1) == 0
  }

  predicate IsOn(b: bv8, bit: bv8) {
    b & bit != 0
  }

  predicate Touches(cfg: Config, info: ModuleInfo, t: nat, bit: bv8) {
    t in LiveSelection(cfg, info) && (cfg.value == 0 || IsOn(cfg.value, bit))
  }

  lemma BitIsSwitched(b: bv8, r: bv8, value: bv8, setActive: bool, bit: bv8)
    requires OneBit(bit) && IsSwitched(b, r, value, setActive)
    ensures IsOn(r, bit) <==> if value == 0 || IsOn(value, bit) then value != 0 && setActive else IsOn(b, bit)
  {
  }

  // What one option does to one bit of a trace point.
  lemma BitOfEffect(cfg: Config, info: ModuleInfo, active: seq<bv8>, t: nat, bit: bv8)
    requires OneBit(bit) && t < |active|
    ensures |LiveEffect(cfg, info, active)| == |active|
    ensures IsOn(LiveEffect(cfg, info, active)[t], bit)
            <==> if Touches(cfg, info, t, bit) then cfg.value != 0 && cfg.setActive else IsOn(active[t], bit)
  {
    EffectOnTracePoint(cfg, info, active, t);
    if t in LiveSelection(cfg, info) {
      BitIsSwitched(active[t], LiveEffect(cfg, info, active)[t], cfg.value, cfg.setActive, bit);
    }
  }

  // What a bit of a trace point is after some options, if it was `on` before.
  function BitAfter(configs: seq<Config>, info: ModuleInfo, t: nat, bit: bv8, on: bool): bool {
    if configs == [] then on
    else
      var last := configs[|configs| - 1];
      if Touches(last, info, t, bit) then last.value != 0 && last.setActive
      else BitAfter(configs[..|configs| - 1], info, t, bit, on)
  }

  lemma {:induction false} BitOfFold(configs: seq<Config>, info: ModuleInfo, active: seq<bv8>, t: nat, bit: bv8)
    requires OneBit(bit) && t < |active|
    ensures |Fold(configs, info, active)| == |active|
    ensures IsOn(Fold(configs, info, active)[t], bit) <==> BitAfter(configs, info, t, bit, IsOn(active[t], bit))
  {
    if configs != [] {
      var n := |configs| - 1;
      BitOfFold(configs[..n], info, active, t, bit);
      BitOfEffect(configs[n], info, Fold(configs[..n], info, active), t, bit);
    }
  }

  // The last option that touches it decides.
  lemma {:induction false} LastTouchDecides(configs: seq<Config>, info: ModuleInfo, t: nat, bit: bv8, on: bool, i: nat)
    requires i <= |configs| && forall k :: i <= k < |configs| ==> !Touches(configs[k], info, t, bit)
    requires i > 0 ==> Touches(configs[i - 1], info, t, bit)
    ensures BitAfter(configs, info, t, bit, on)
            <==> if i > 0 then configs[i - 1].value != 0 && configs[i - 1].setActive else on
    decreases |configs|
  {
    if i < |configs| {
      LastTouchDecides(configs[..|configs| - 1], info, t, bit, on, i);
    }
  }

  // In every run of uniform options, each bit of each trace point is as the last option
  // has left it that touches it, whether the component was registered by then or not, and
  // as it was at the start if there is none.
  lemma LastOptionDecides(events: seq<Event>, j: nat, t: nat, bit: bv8, i: nat)
    requires Proper(events) && j < |events| && events[j].Registers?
    requires forall e <- events :: e.SetTrace? ==> Uniform(e.cfg)
    requires OneBit(bit) && t < events[j].info.count && i <= |Options(events)|
    requires forall k :: i <= k < |Options(events)| ==> !Touches(Options(events)[k], events[j].info, t, bit)
    requires i > 0 ==> Touches(Options(events)[i - 1], events[j].info, t, bit)
    ensures exists c <- Run(events).components ::
              && c.info == events[j].info && t < |c.active|
              && (IsOn(c.active[t], bit) <==>
                    if i > 0 then Options(events)[i - 1].value != 0 && Options(events)[i - 1].setActive
                    else IsOn(events[j].initial[t], bit))
  {
    var configs, info, initial := Options(events), events[j].info, events[j].initial;
    assert events[j] in events;
    RegistrationTimeIsIrrelevant(events, j);
    BitOfFold(configs, info, initial, t, bit);
    LastTouchDecides(configs, info, t, bit, IsOn(initial[t], bit), i);
    assert Component(info, Fold(configs, info, initial)) in Run(events).components;
  }
}
