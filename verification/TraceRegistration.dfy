/** Runs of options and registrations: when a component registers makes no difference. */
module TraceRegistration {
  import opened TraceConfig
  import opened TraceComponents

  datatype Event = SetTrace(cfg: Config) | Registers(info: ModuleInfo, initial: seq<bv8>)

  function Step(r: Registry, e: Event): Registry {
    match e
    case SetTrace(cfg) => SetOption(r, cfg)
    case Registers(info, initial) => Register(r, info, initial)
  }

  function Run(events: seq<Event>): Registry {
    if events == [] then Registry([], [])
    else Step(Run(events[..|events| - 1]), events[|events| - 1])
  }

  // Each component registers once, under a name of its own.
  predicate Proper(events: seq<Event>) {
    && (forall e <- events :: e.Registers? ==> Configurable(e.info) && |e.initial| == e.info.count)
    && (forall i, j :: 0 <= i < j < |events| && events[i].Registers? && events[j].Registers? ==>
          !SameName(events[i].info.name, events[j].info.name))
  }

  // The options, in the order in which they were set.
  function Options(events: seq<Event>): seq<Config> {
    if events == [] then []
    else
      var last := events[|events| - 1];
      Options(events[..|events| - 1]) + if last.SetTrace? then [last.cfg] else []
  }

  // The in-order fold of the options a component is there for.
  function Fold(configs: seq<Config>, info: ModuleInfo, active: seq<bv8>): seq<bv8> {
    if configs == [] then active
    else LiveEffect(configs[|configs| - 1], info, Fold(configs[..|configs| - 1], info, active))
  }

  // What a component that registers as event `j` ends up with: every option before is
  // applied as a kept one, every option after as a live one.
  function Final(events: seq<Event>, j: nat): seq<bv8>
    requires j < |events| && events[j].Registers?
  {
    Fold(Options(events[j + 1..]), events[j].info, Replay(Options(events[..j]), events[j].info, events[j].initial))
  }

  // ---------- The run, component by component ----------

  lemma {:induction false} NamesAreRegistered(events: seq<Event>, name: string)
    ensures Registered(Run(events).components, name) ==>
              exists j :: 0 <= j < |events| && events[j].Registers? && SameName(name, events[j].info.name)
  {
    if events != [] && Registered(Run(events).components, name) {
      var n := |events| - 1;
      var before := Run(events[..n]);
      var c :| c in Run(events).components && SameName(name, c.info.name);
      var i :| 0 <= i < |Run(events).components| && Run(events).components[i] == c;
      if i < |before.components| {
        assert before.components[i] in before.components && before.components[i].info == c.info;
        NamesAreRegistered(events[..n], name);
      } else {
        assert events[n].Registers? && events[n].info == c.info;
      }
    }
  }

  // A component whose name is not taken yet gets the same from the options that were
  // kept as from all the options that were set.
  lemma {:induction false} KeptIsEnough(events: seq<Event>, info: ModuleInfo, active: seq<bv8>)
    requires forall e <- events :: e.Registers? ==> !SameName(e.info.name, info.name)
    ensures Replay(Run(events).deferred, info, active) == Replay(Options(events), info, active)
  {
    if events != [] {
      var n := |events| - 1;
      var before := Run(events[..n]);
      KeptIsEnough(events[..n], info, active);
      match events[n]
      case Registers(_, _) =>
        assert Options(events) == Options(events[..n]);
      case SetTrace(cfg) =>
        assert Options(events)[..|Options(events[..n])|] == Options(events[..n]);
        if IsForAll(cfg) || !Registered(before.components, cfg.name) {
          assert (before.deferred + [cfg])[..|before.deferred|] == before.deferred;
        } else {
          NamesAreRegistered(events[..n], cfg.name);
          NotForThis(events[..n], cfg, info);
          ApplyNothing(Replay(before.deferred, info, active), cfg.value, cfg.setActive);
        }
    }
  }

  lemma NotForThis(events: seq<Event>, cfg: Config, info: ModuleInfo)
    requires !IsForAll(cfg)
    requires exists j :: 0 <= j < |events| && events[j].Registers? && SameName(cfg.name, events[j].info.name)
    requires forall e <- events :: e.Registers? ==> !SameName(e.info.name, info.name)
    ensures DeferredSelection(cfg, info) == {}
  {
    var j :| 0 <= j < |events| && events[j].Registers? && SameName(cfg.name, events[j].info.name);
    assert events[j] in events;
    if SameName(cfg.name, info.name) {
      SameNameTransitive(cfg.name, events[j].info.name, cfg.name);
      SameNameTransitive(events[j].info.name, cfg.name, info.name);
    }
    assert |cfg.name| == 3 ==> cfg.name[..3] == cfg.name;
  }

  // The trace points of every component, whatever the options are.
  lemma {:induction false} RunGivesFinal(events: seq<Event>, j: nat)
    requires Proper(events) && j < |events| && events[j].Registers?
    ensures Component(events[j].info, Final(events, j)) in Run(events).components
    decreases |events|
  {
    var n := |events| - 1;
    if j == n {
      FinalAtRegistration(events);
    } else {
      RunGivesFinal(events[..n], j);
      assert events[..n][..j] == events[..j];
      FinalStep(events, j);
      StaysRegistered(Run(events[..n]), events[n], Component(events[j].info, Final(events[..n], j)));
    }
  }

  lemma FinalAtRegistration(events: seq<Event>)
    requires Proper(events) && events != [] && events[|events| - 1].Registers?
    ensures var n := |events| - 1;
            Component(events[n].info, Final(events, n)) in Run(events).components
  {
    var n := |events| - 1;
    var info := events[n].info;
    assert events[n + 1..] == [];
    forall e | e in events[..n] && e.Registers? ensures !SameName(e.info.name, info.name) {
      var i :| 0 <= i < n && events[i] == e;
    }
    KeptIsEnough(events[..n], info, events[n].initial);
    assert Run(events).components[|Run(events[..n]).components|] == Component(info, Final(events, n));
  }

  lemma StaysRegistered(r: Registry, e: Event, c: Component)
    requires c in r.components
    ensures (if e.SetTrace? then LiveComponent(c, e.cfg) else c) in Step(r, e).components
  {
    var i :| 0 <= i < |r.components| && r.components[i] == c;
    assert Step(r, e).components[i] == if e.SetTrace? then LiveComponent(c, e.cfg) else c;
  }

  lemma FinalStep(events: seq<Event>, j: nat)
    requires j < |events| - 1 && events[j].Registers?
    ensures var n := |events| - 1;
            Final(events, j) == if events[n].SetTrace? then LiveEffect(events[n].cfg, events[j].info, Final(events[..n], j))
                                else Final(events[..n], j)
  {
    var n := |events| - 1;
    assert events[..n][..j] == events[..j];
    var later := events[j + 1..];
    assert later[..|later| - 1] == events[..n][j + 1..] && later[|later| - 1] == events[n];
    if events[n].SetTrace? {
      var options := Options(later);
      assert options[..|options| - 1] == Options(events[..n][j + 1..]);
    } else {
      assert Options(later) == Options(events[..n][j + 1..]);
    }
  }

  // ---------- Uniform options ----------

  lemma {:induction false} ReplayIsFold(configs: seq<Config>, info: ModuleInfo, active: seq<bv8>)
    requires Configurable(info) && forall cfg <- configs :: Uniform(cfg)
    ensures Replay(configs, info, active) == Fold(configs, info, active)
  {
    if configs != [] {
      ReplayIsFold(configs[..|configs| - 1], info, active);
      UniformAgrees(configs[|configs| - 1], info);
    }
  }

  lemma {:induction false} FoldInTwo(configs: seq<Config>, later: seq<Config>, info: ModuleInfo, active: seq<bv8>)
    ensures Fold(configs + later, info, active) == Fold(later, info, Fold(configs, info, active))
  {
    if later == [] {
      assert configs + later == configs;
    } else {
      var n := |later| - 1;
      FoldInTwo(configs, later[..n], info, active);
      assert configs + later == (configs + later[..n]) + [later[n]];
      FoldAppend(configs + later[..n], later[n], info, active);
    }
  }

  lemma FoldAppend(configs: seq<Config>, cfg: Config, info: ModuleInfo, active: seq<bv8>)
    ensures Fold(configs + [cfg], info, active) == LiveEffect(cfg, info, Fold(configs, info, active))
  {
    assert (configs + [cfg])[..|configs|] == configs;
  }

  lemma {:induction false} OptionsInTwo(events: seq<Event>, j: nat)
    requires j < |events| && events[j].Registers?
    ensures Options(events) == Options(events[..j]) + Options(events[j + 1..])
    decreases |events|
  {
    var n := |events| - 1;
    var later := events[j + 1..];
    if j < n {
      OptionsInTwo(events[..n], j);
      assert events[..n][..j] == events[..j];
      assert later[..|later| - 1] == events[..n][j + 1..] && later[|later| - 1] == events[n];
    } else {
      assert later == [] && events[..j] == events[..n];
    }
  }

  lemma OptionsAreSet(events: seq<Event>, cfg: Config)
    requires cfg in Options(events)
    ensures SetTrace(cfg) in events
  {
    if events != [] && cfg in Options(events[..|events| - 1]) {
      OptionsAreSet(events[..|events| - 1], cfg);
    }
  }

  // Registration time is irrelevant: in every run of uniform options, each component ends
  // up with the in-order fold of all the options, those set before it registered and
  // those set after.
  lemma RegistrationTimeIsIrrelevant(events: seq<Event>, j: nat)
    requires Proper(events) && j < |events| && events[j].Registers?
    requires forall e <- events :: e.SetTrace? ==> Uniform(e.cfg)
    ensures Component(events[j].info, Fold(Options(events), events[j].info, events[j].initial)) in Run(events).components
  {
    RunGivesFinal(events, j);
    var before, later := Options(events[..j]), Options(events[j + 1..]);
    forall cfg | cfg in before ensures Uniform(cfg) {
      OptionsAreSet(events[..j], cfg);
      assert SetTrace(cfg) in events;
    }
    ReplayIsFold(before, events[j].info, events[j].initial);
    FoldInTwo(before, later, events[j].info, events[j].initial);
    OptionsInTwo(events, j);
  }

  // ---------- A component that cannot be registered ----------

  // The walk over the kept options while a component is registered.  For a component
  // whose own name starts with "all", applying an option keeps it once more, under the
  // name of the component.
  datatype Walk = Walk(kept: seq<Config>, cursor: nat)

  function WalkStep(w: Walk, info: ModuleInfo): Walk
    requires w.cursor < |w.kept|
  {
    var cfg := w.kept[w.cursor];
    var kept := if AppliesLater(cfg, info) && HasPrefix(info.name, ALL) then w.kept + [cfg.(name := info.name)] else w.kept;
    Walk(kept, w.cursor + 1)
  }

  predicate WalkRuns(w: Walk, info: ModuleInfo, steps: nat)
    decreases steps
  {
    steps == 0 || (w.cursor < |w.kept| && WalkRuns(WalkStep(w, info), info, steps - 1))
  }

  // The walk ends for every other component, and goes on for ever for such a component as
  // soon as one kept option applies to it.
  lemma {:induction false} ReplayNeverEnds(w: Walk, info: ModuleInfo, i: nat, steps: nat)
    requires HasPrefix(info.name, ALL)
    requires w.cursor <= i < |w.kept| && AppliesLater(w.kept[i], info)
    ensures WalkRuns(w, info, steps)
    decreases steps
  {
    if steps > 0 {
      var w' := WalkStep(w, info);
      SameNameReflexive(info.name);
      if w.cursor < i {
        ReplayNeverEnds(w', info, i, steps - 1);
      } else {
        ReplayNeverEnds(w', info, |w.kept|, steps - 1);
      }
    }
  }

  lemma {:induction false} ReplayEnds(w: Walk, info: ModuleInfo)
    requires w.cursor <= |w.kept|
    requires !HasPrefix(info.name, ALL) || forall i :: w.cursor <= i < |w.kept| ==> !AppliesLater(w.kept[i], info)
    ensures !WalkRuns(w, info, |w.kept| - w.cursor + 1)
    decreases |w.kept| - w.cursor
  {
    if w.cursor < |w.kept| {
      ReplayEnds(WalkStep(w, info), info);
    }
  }
}
