// Whole runs of the update engine: any sequence of calls, with crashes, faults and failures.
module Runs {
  import opened Prelude
  import opened Policy
  import opened Manifest
  import opened Gates
  import Manager
  import QrxCore
  import Releases
  import SelfUpdate
  import SemVer
  import Store

  /* ---------- What a check promises ---------- */

  /**
   * Check, then install on what it said. An available, unblocked update that is not the rollback
   * target gets its "started" row, unless that very insert fails, and exactly one more whatever
   * happens to the store; a blocked one fails and touches nothing.
   */
  method CheckThenInstall(m: Manager.Manager, component: string, opts: Options, s: Scene, outcomes: Manager.Outcomes,
                          st: Store.Store)
    returns (check: Result<CheckResult, Error>, r: Result<bool, Error>)
    requires st.Sound() && s.disk == st.disk && s.settings == m.settings.values
    modifies m.settings, m.history, st
    ensures Promising(check, s, opts) ==>
              var n := |old(m.history.rows)|;
              && ((r == Err(HistoryWrite) && st.trail == old(st.trail) && m.history.rows == old(m.history.rows))
                  || (old(m.history.rows) <= m.history.rows && |m.history.rows| > n
                      && m.history.rows[n].status == Started && m.history.rows[n].toVersion == check.value.latest))
              && (m.settings.faults == old(m.settings.faults) && m.history.faults == old(m.history.faults) ==>
                    |m.history.rows| == n + 2)
    ensures check.Ok? && check.value.Blocked() && (opts.channel == check.value.channel || opts.channel == "") ==>
              r.Err? && st.trail == old(st.trail) && m.history.rows == old(m.history.rows)
              && m.settings.values == old(m.settings.values)
  {
    hide Gate, CheckOf, FetchVerified, SemVer.Parse, Manager.CleanOutcome, Manager.InstallOutcome;
    check := m.Check(component, s);
    r := m.Install(component, opts, s.feed, s.versions, s.windowOpen, outcomes, st);
    if check.Ok? && check.value.Blocked() && (opts.channel == check.value.channel || opts.channel == "") {
      BlockedMeansGateFails(m.setup, s, component, opts);
    }
    if Promising(check, s, opts) {
      CheckPredictsInstall(m.setup, s, component, opts);
    }
  }

  /* ---------- Switching QRX Core and back, updating it or falling back ---------- */

  /**
   * From an installed version: a switch that fails its validation ends on that version, started
   * again; one that succeeds can be switched back, which is never refused as not installed.
   */
  method SwitchThenBack(core: QrxCore.CoreManager, target: string, profile: Option<QrxCore.Profile>,
                        profileBack: Option<QrxCore.Profile>, expert: bool, sv: QrxCore.Services,
                        svBack: QrxCore.Services, st: Store.Store)
    returns (err: Option<QrxCore.CoreError>, back: Option<QrxCore.CoreError>)
    requires st.Sound() && st.disk.current.Some? && st.disk.current.value in st.disk.releases
    requires st.disk.current.value != ""
    modifies core, core.history, st
    ensures core.Faults(st) == old(core.Faults(st)) && err == Some(QrxCore.ValidationFailed) ==>
              && st.disk.current == old(st.disk.current)
              && (sv.CanFallBack() ==> core.lastStarted == old(st.disk.current))
    ensures core.Faults(st) == old(core.Faults(st)) && err.None? ==>
              && back != Some(QrxCore.NotInstalled)
              && (back.None? ==> st.disk.current == old(st.disk.current) && core.lastStarted == old(st.disk.current))
              && (back.None? && Some(target) != old(st.disk.current) ==> st.disk.previous == Some(target))
  {
    hide Releases.Traced, Releases.Performed;
    var from := TextOf(st.disk.current);
    ghost var pre := st.disk;
    err := core.SwitchVersion(target, profile, expert, sv, st);
    back := err;
    if target in pre.releases && core.Faults(st) == old(core.Faults(st)) {
      QrxCore.ActivationLands(pre, target, from, []);
      ghost var d := QrxCore.SwitchedTo(pre, target);
      ghost var pruned := if err.None? then st.disk else Releases.Pruned(d, core.RetainVersions());
      Releases.PrunedIsThinned(d, core.RetainVersions());
      QrxCore.FallbackAndSwitchBack(d, target, from, core.RetainVersions(), pruned);
    }
    if err.None? {
      back := core.SwitchVersion(from, profileBack, expert, svBack, st);
    }
  }

  /**
   * An update from an installed version either lands, and can be switched back, or falls back to
   * it, however directory steps turn out; see QrxCore.FallsBack for each way it can end.
   */
  method UpdateOrFallBack(core: QrxCore.CoreManager, profile: Option<QrxCore.Profile>, expert: bool, channel: string,
                          allowDowngrade: bool, feed: Feed, artifact: QrxCore.Artifact, sv: QrxCore.Services,
                          st: Store.Store)
    returns (err: Option<QrxCore.CoreError>)
    requires st.Sound() && st.disk.current.Some? && st.disk.current.value in st.disk.releases
    requires st.disk.current.value != ""
    modifies core, core.settings, core.history, st
    ensures core.Faults(st) == old(core.Faults(st)) ==>
              var gate := core.UpdateGate(profile, expert, channel, allowDowngrade, feed, old(core.settings.values),
                                          old(st.disk));
              if gate.Err? then
                err == Some(gate.error) && st.disk == old(st.disk) && core.lastStarted == old(core.lastStarted)
              else QrxCore.FallsBack(old(st.disk), st.disk, old(st.disk.current).value, gate.value.update.version, sv,
                                     core.lastStarted, err)
  {
    hide Releases.Traced, Releases.Performed, QrxCore.UpdateOutcome, QrxCore.FallsBack;
    ghost var pre, last, rows, s := st.disk, core.lastStarted, core.history.rows, core.settings.values;
    err := core.Update(profile, expert, channel, allowDowngrade, feed, artifact, sv, st);
    ghost var gate := core.UpdateGate(profile, expert, channel, allowDowngrade, feed, s, pre);
    if gate.Ok? && core.Faults(st) == old(core.Faults(st)) {
      QrxCore.UpdateFallsBack(gate.value.update.version, artifact, sv, core.RetainVersions(), pre, st.disk,
                              pre.current.value, last, core.lastStarted, rows, core.history.rows, err);
    }
  }

  /* ---------- Crash safety ---------- */

  /** One call into the engine; `crash` says after how many of its disk steps the machine stops. */
  datatype Call = Call(action: Action, crash: Option<nat>)

  datatype Action =
    | Install(opts: Options, feed: Feed, versions: Versions, windowOpen: bool, outcomes: Manager.Outcomes)
    | Rollback(stopped: bool, started: bool, healthy: bool)
    | Start(boot: SelfUpdate.Boot)
    | Bootstrap(version: string)
    | CoreUpdate(profile: Option<QrxCore.Profile>, expert: bool, channel: string, allowDowngrade: bool,
                 feed: Feed, artifact: QrxCore.Artifact, services: QrxCore.Services)
    | CoreSwitch(target: string, profile: Option<QrxCore.Profile>, expert: bool, services: QrxCore.Services)

  /** The calls that discard what they could not promote; all others leave the store whole. */
  predicate MayWreck(setup: Setup, component: string, action: Action) {
    action.CoreUpdate?
    || (action.Install? && component in setup.controllers && setup.controllers[component].selfBinary)
  }

  /** Performs one call on a component's store; a crash also loses any part of the settings. */
  method Perform(m: Manager.Manager, guard: SelfUpdate.BootGuard, core: QrxCore.CoreManager, component: string,
                 call: Call, st: Store.Store)
    requires st.Sound()
    requires guard.settings == m.settings == core.settings && guard.history == m.history == core.history
    modifies m.settings, m.history, core, st
    ensures st.Sound() && old(st.trail) <= st.trail
    ensures old(st.wreck).Some? ==> st.wreck == old(st.wreck)
    ensures st.wreck != old(st.wreck) ==> MayWreck(m.setup, component, call.action)
  {
    hide Gate, Manager.CleanOutcome, Manager.InstallOutcome, Manager.RowsOf, Manager.OnlyBookkeeping;
    hide QrxCore.UpdateOutcome, QrxCore.UpdatedDisk, SelfUpdate.BootStep, SelfUpdate.ViewOf;
    hide Releases.Traced, Releases.Performed;
    var mark := |st.trail| - 1;
    Releases.WreckIsPast(st.trail, st.wreck);
    match call.action {
      case Install(opts, feed, versions, windowOpen, outcomes) =>
        var _ := m.Install(component, opts, feed, versions, windowOpen, outcomes, st);
      case Rollback(stopped, started, healthy) =>
        var _ := m.Rollback(component, stopped, started, healthy, st);
      case Start(boot) =>
        SelfUpdate.StartProcess(guard, m, component, boot, st);
      case Bootstrap(version) =>
        var _ := st.BootstrapCurrent(version);
      case CoreUpdate(profile, expert, channel, allowDowngrade, feed, artifact, services) =>
        var _ := core.Update(profile, expert, channel, allowDowngrade, feed, artifact, services, st);
      case CoreSwitch(target, profile, expert, services) =>
        var _ := core.SwitchVersion(target, profile, expert, services, st);
    }
    if call.crash.Some? && mark + call.crash.value < |st.trail| {
      st.Crash(mark, mark + call.crash.value);
      m.settings.values := *;
      m.history.rows := *;
    }
  }

  /**
   * Crash safety over every run: whatever is called, however it turns out and wherever it is cut
   * off, every state the disk was ever in is intact and no directory changed while named. The one
   * exception is a wreck: from the step on that discards a release just made current because
   * promoting it could not be finished. Only a self-binary install or a core update can take it.
   */
  method AnyRun(m: Manager.Manager, guard: SelfUpdate.BootGuard, core: QrxCore.CoreManager, component: string,
                calls: seq<Call>, st: Store.Store)
    requires st.Sound()
    requires guard.settings == m.settings == core.settings && guard.history == m.history == core.history
    modifies m.settings, m.history, core, st
    ensures st.Sound() && old(st.trail) <= st.trail
    ensures Releases.KeepsNamed(st.trail) <==> st.wreck.None?
    ensures st.wreck.Some? ==>
              && 0 < st.wreck.value < |st.trail| && Releases.KeepsNamed(st.trail[..st.wreck.value])
              && Releases.Destroys(st.trail[st.wreck.value - 1], st.trail[st.wreck.value])
    ensures (forall c | c in calls :: !MayWreck(m.setup, component, c.action)) ==> st.wreck == old(st.wreck)
  {
    hide Releases.Traced, Releases.KeepsNamed, Releases.Destroys, MayWreck;
    for n := 0 to |calls|
      invariant st.Sound() && old(st.trail) <= st.trail
      invariant old(st.wreck).Some? ==> st.wreck == old(st.wreck)
      invariant (forall c | c in calls :: !MayWreck(m.setup, component, c.action)) ==> st.wreck == old(st.wreck)
    {
      assert calls[n] in calls;
      Perform(m, guard, core, component, calls[n], st);
    }
    Releases.TracedKeepsNamed(st.trail, st.wreck);
  }

  /* ---------- All or nothing ---------- */

  /**
   * An install over a current version is all or nothing, however it turns out, as long as settings,
   * history and pointer writes succeed.
   */
  method InstallOrNothing(m: Manager.Manager, component: string, c: InstallCall, st: Store.Store)
    returns (r: Result<bool, Error>)
    requires st.Sound() && st.disk.current.Some?
    modifies m.settings, m.history, st
    ensures m.Faults(st) == old(m.Faults(st)) ==>
              Manager.AllOrNothing(old(st.disk), st.disk, old(m.history.rows), m.history.rows, r)
  {
    hide Gate, FetchVerified, Manager.CleanOutcome, Manager.InstallOutcome, Manager.AllOrNothing;
    hide Releases.Traced, Releases.Performed;
    ghost var pre, rows, s := st.disk, m.history.rows, m.settings.values;
    ghost var scene := Scene(s, pre, c.feed, c.versions, c.windowOpen);
    r := m.Install(component, c.opts, c.feed, c.versions, c.windowOpen, c.outcomes, st);
    ghost var gate := Gate(m.setup, scene, component, c.opts);
    if gate.Err? {
      Manager.RefusalIsAllOrNothing(pre, rows, gate.error);
    } else if m.Faults(st) == old(m.Faults(st)) {
      Manager.OutcomeIsAllOrNothing(gate.value, component, m.setup.controllers[component], c.outcomes,
                                    m.RetainVersions(), pre, st.disk, rows, m.history.rows, s, m.settings.values, r);
    }
  }

  /* ---------- Versions never go back ---------- */

  /** From one read of `current` to the next: unchanged, or moved to something no older. */
  predicate NotOlder(before: Option<string>, after: Option<string>) {
    after == before || (after.Some? && (before.None? || SemVer.Compare(after.value, before.value) >= 0))
  }

  predicate Parses(v: Option<string>) {
    v.Some? ==> SemVer.Valid(v.value)
  }

  lemma NotOlderTwice(a: Option<string>, b: Option<string>, c: Option<string>)
    requires Parses(a) && Parses(b) && Parses(c) && NotOlder(a, b) && NotOlder(b, c)
    ensures NotOlder(a, c)
  {
    if a.Some? && b.Some? && c.Some? && a != b && b != c {
      SemVer.CompareGoesUp(a.value, b.value, c.value);
    }
  }

  ghost predicate Ascending(seen: seq<Option<string>>) {
    && (forall k | 0 <= k < |seen| :: Parses(seen[k]))
    && (forall k | 0 < k < |seen| :: NotOlder(seen[k - 1], seen[k]))
  }

  lemma AscendingGrows(seen: seq<Option<string>>, next: Option<string>)
    requires Ascending(seen) && seen != [] && Parses(next) && NotOlder(seen[|seen| - 1], next)
    ensures Ascending(seen + [next])
  {
    var all := seen + [next];
    forall k | 0 < k < |all| ensures NotOlder(all[k - 1], all[k]) {
      assert all[k - 1] == seen[k - 1];
      assert k < |seen| ==> all[k] == seen[k];
    }
    forall k | 0 <= k < |all| ensures Parses(all[k]) {
      assert k < |seen| ==> all[k] == seen[k];
    }
  }

  lemma NotOlderThanItself(a: Option<string>)
    ensures NotOlder(a, a)
  {
    hide SemVer.Compare;
  }

  lemma AscendingReads(seen: seq<Option<string>>, k: nat)
    requires Ascending(seen) && k < |seen|
    ensures Parses(seen[k]) && (k > 0 ==> NotOlder(seen[k - 1], seen[k]))
  {
    hide NotOlder, Parses;
  }

  /** If no step goes back, no later reading is older than any earlier one. */
  lemma {:induction false} NeverOlder(seen: seq<Option<string>>, i: nat, j: nat)
    requires Ascending(seen) && i <= j < |seen|
    ensures NotOlder(seen[i], seen[j])
    decreases j - i
  {
    hide NotOlder, Parses;
    NotOlderThanItself(seen[i]);
    if i < j {
      AscendingReads(seen, j);
      NeverOlder(seen, i, j - 1);
      AscendingReads(seen, i);
      AscendingReads(seen, j - 1);
      NotOlderTwice(seen[i], seen[j - 1], seen[j]);
    }
  }

  /** The arguments of one install that is not a confirmed downgrade, with parsable versions on offer. */
  datatype InstallCall = InstallCall(opts: Options, feed: Feed, versions: Versions, windowOpen: bool,
                                     outcomes: Manager.Outcomes)

  ghost predicate Upgrading(c: InstallCall, component: string) {
    && !c.opts.allowDowngrade
    && forall channel: string ::
         var m := c.feed.manifests(channel);
         m.Some? && component in m.value.components ==> SemVer.Valid(m.value.components[component].version)
  }

  /** What a gate lets through is parsable and no older than `current`. */
  lemma GateNeverGoesBack(setup: Setup, s: Scene, component: string, c: InstallCall)
    requires Upgrading(c, component) && s.feed == c.feed && s.disk.current != Some("")
    ensures var gate := Gate(setup, s, component, c.opts);
            gate.Ok? ==> var target := Some(gate.value.update.version);
                         Parses(target) && NotOlder(s.disk.current, target)
  {
    var gate := Gate(setup, s, component, c.opts);
    if gate.Ok? {
      assert c.feed.manifests(gate.value.channel) == Some(gate.value.manifest);
    }
  }

  lemma InstallNeverGoesBack(setup: Setup, s: Scene, component: string, c: InstallCall, after: Option<string>)
    requires Upgrading(c, component) && s.feed == c.feed && Parses(s.disk.current)
    requires var gate := Gate(setup, s, component, c.opts);
             after == s.disk.current || (gate.Ok? && Manager.MayBeCurrent(s.disk, after, gate.value.update.version))
    requires s.disk.previous.Some? ==> s.disk.current.Some?
    ensures Parses(after) && NotOlder(s.disk.current, after)
  {
    if after != s.disk.current {
      EmptyDoesNotParse();
      GateNeverGoesBack(setup, s, component, c);
    }
  }

  /**
   * Any run of installs of a synchronous component, each failing or succeeding at any point: the
   * versions read from `current` between them never decrease.
   */
  method InstallRun(m: Manager.Manager, component: string, calls: seq<InstallCall>, st: Store.Store)
    returns (seen: seq<Option<string>>)
    requires st.Sound() && st.wreck.None? && Parses(st.disk.current)
    requires component in m.setup.controllers ==> !m.setup.controllers[component].selfBinary
    requires forall c | c in calls :: Upgrading(c, component)
    modifies m.settings, m.history, st
    ensures |seen| == |calls| + 1 && seen[0] == old(st.disk.current) && seen[|calls|] == st.disk.current
    ensures forall i, j | 0 <= i <= j < |seen| :: NotOlder(seen[i], seen[j])
  {
    seen := [st.disk.current];
    for n := 0 to |calls|
      invariant st.Sound() && st.wreck.None? && |seen| == n + 1
      invariant seen[0] == old(st.disk.current) && seen[n] == st.disk.current
      invariant Ascending(seen)
    {
      assert calls[n] in calls;
      InstallOnce(m, component, calls[n], st);
      AscendingGrows(seen, st.disk.current);
      seen := seen + [st.disk.current];
    }
    forall i, j | 0 <= i <= j < |seen| ensures NotOlder(seen[i], seen[j]) {
      NeverOlder(seen, i, j);
    }
  }

  method InstallOnce(m: Manager.Manager, component: string, c: InstallCall, st: Store.Store)
    requires st.Sound() && st.wreck.None? && Parses(st.disk.current) && Upgrading(c, component)
    requires component in m.setup.controllers ==> !m.setup.controllers[component].selfBinary
    modifies m.settings, m.history, st
    ensures st.Sound() && st.wreck.None?
    ensures Parses(st.disk.current) && NotOlder(old(st.disk.current), st.disk.current)
  {
    hide Gate, FetchVerified, Manager.CleanOutcome, Manager.InstallOutcome, SemVer.Parse;
    ghost var scene := Scene(m.settings.values, st.disk, c.feed, c.versions, c.windowOpen);
    var _ := m.Install(component, c.opts, c.feed, c.versions, c.windowOpen, c.outcomes, st);
    InstallNeverGoesBack(m.setup, scene, component, c, st.disk.current);
  }

  lemma EmptyDoesNotParse()
    ensures !SemVer.Valid("")
  {
  }

  /* ---------- Manifests never go back ---------- */

  /** A call of either manager, on any component's store. */
  datatype Fetch =
    | ByManager(component: string, opts: Options, feed: Feed, versions: Versions, windowOpen: bool,
                outcomes: Manager.Outcomes)
    | ByCore(profile: Option<QrxCore.Profile>, expert: bool, channel: string, allowDowngrade: bool,
             feed: Feed, artifact: QrxCore.Artifact, services: QrxCore.Services)

  /** Every recorded last-seen date can be read. */
  ghost predicate DatesReadable(s: Settings, instant: string -> Option<int>) {
    forall ch: string :: LastSeen(s, ch) != "" ==> instant(LastSeen(s, ch)).Some?
  }

  /** On no channel does the last-seen instant move back, or get lost. */
  ghost predicate DatesForward(s: Settings, s': Settings, instant: string -> Option<int>) {
    forall ch: string :: LastSeen(s, ch) != "" ==>
      && LastSeen(s', ch) != "" && instant(LastSeen(s, ch)).Some? && instant(LastSeen(s', ch)).Some?
      && instant(LastSeen(s', ch)).value >= instant(LastSeen(s, ch)).value
  }

  /** What a passed fetch may record keeps every channel's date readable and never earlier. */
  lemma BookkeepingMovesForward(s: Settings, s': Settings, instant: string -> Option<int>, feed: Feed,
                                channel: string, m: Manifest, component: string)
    requires DatesReadable(s, instant) && FetchVerified(instant, s, feed, channel) == Ok(m)
    requires Manager.OnlyBookkeeping(s, s', channel, m.releasedAt, component)
    ensures DatesReadable(s', instant) && DatesForward(s, s', instant)
  {
    forall ch: string
      ensures LastSeen(s', ch) != "" ==> instant(LastSeen(s', ch)).Some?
      ensures LastSeen(s, ch) != "" ==>
                && LastSeen(s', ch) != "" && instant(LastSeen(s', ch)).Some?
                && instant(LastSeen(s', ch)).value >= instant(LastSeen(s, ch)).value
    {
      if ch != channel {
        assert LastManifest(ch) in s' <==> LastManifest(ch) in s;
        assert LastSeen(s', ch) == LastSeen(s, ch);
      }
    }
  }

  /** The channel and the date of the manifest a call acted on. */
  datatype Acted = Acted(channel: string, releasedAt: string)

  /** Every well-formed and trusted manifest older than that one is refused on its channel as a replay. */
  ghost predicate RefusesOlder(s: Settings, instant: string -> Option<int>, acted: Acted) {
    && instant(acted.releasedAt).Some?
    && forall feed: Feed ::
         var served := feed.manifests(acted.channel);
         served.Some? && IsValid(served.value, instant) && feed.trusted(served.value)
         && instant(served.value.releasedAt).value < instant(acted.releasedAt).value ==>
           FetchVerified(instant, s, feed, acted.channel) == Err(Replayed)
  }

  /** The call's source serves a manifest of that date on that channel, the one it names if it names one. */
  ghost predicate ServedBy(call: Fetch, acted: Acted, instant: string -> Option<int>) {
    var asked := if call.ByManager? then call.opts.channel else call.channel;
    && (asked != "" ==> acted.channel == asked)
    && call.feed.manifests(acted.channel).Some?
    && call.feed.manifests(acted.channel).value.releasedAt == acted.releasedAt
    && acted.releasedAt != "" && instant(acted.releasedAt).Some?
  }

  lemma RememberedIsRefused(s: Settings, s': Settings, instant: string -> Option<int>, call: Fetch, acted: Acted)
    requires DatesForward(s, s', instant) && ServedBy(call, acted, instant)
    requires LastSeen(s, acted.channel) == acted.releasedAt
    ensures RefusesOlder(s', instant, acted)
  {
    var last := LastSeen(s', acted.channel);
    assert last != "" && instant(last).Some? && instant(last).value >= instant(acted.releasedAt).value;
    forall feed: Feed | feed.manifests(acted.channel).Some?
      ensures var m := feed.manifests(acted.channel).value;
              IsValid(m, instant) && feed.trusted(m)
              && instant(m.releasedAt).value < instant(acted.releasedAt).value ==>
                FetchVerified(instant, s', feed, acted.channel) == Err(Replayed)
    {
      FetchExactly(instant, s', feed, acted.channel);
    }
  }

  /**
   * Any interleaving of whole installs and core updates: no channel's last-seen instant ever
   * decreases, and once a call has succeeded on a manifest, every older one of its channel is refused
   * as a replay from then on.
   */
  method FetchRun(m: Manager.Manager, core: QrxCore.CoreManager, calls: seq<Fetch>, stores: seq<Store.Store>)
    returns (seen: seq<Settings>, ok: seq<bool>, ghost acted: seq<Acted>)
    requires |stores| == |calls| && core.settings == m.settings && core.instant == m.setup.instant
    requires forall i | 0 <= i < |stores| :: stores[i].Sound()
    requires DatesReadable(m.settings.values, core.instant)
    modifies m.settings, m.history, core, core.history, set i | 0 <= i < |stores| :: stores[i]
    ensures |seen| == |calls| + 1 && seen[0] == old(m.settings.values) && seen[|calls|] == m.settings.values
    ensures |ok| == |acted| == |calls|
    ensures forall i, j | 0 <= i <= j < |seen| :: DatesForward(seen[i], seen[j], core.instant)
    ensures forall i | 0 <= i < |calls| && ok[i] :: ServedBy(calls[i], acted[i], core.instant)
    ensures forall i, j | 0 <= i < j < |seen| && ok[i] :: RefusesOlder(seen[j], core.instant, acted[i])
  {
    hide DatesForward, DatesReadable, ServedBy, RefusesOlder, LastSeen;
    seen, ok, acted := [m.settings.values], [], [];
    for n := 0 to |calls|
      invariant forall i | 0 <= i < |stores| :: stores[i].Sound()
      invariant |seen| == n + 1 && seen[0] == old(m.settings.values) && seen[n] == m.settings.values
      invariant |ok| == |acted| == n
      invariant DatesReadable(m.settings.values, core.instant)
      invariant DatedRun(seen, core.instant)
      invariant forall i | 0 <= i < n && ok[i] ::
                  ServedBy(calls[i], acted[i], core.instant)
                  && LastSeen(seen[i + 1], acted[i].channel) == acted[i].releasedAt
    {
      var done, what := FetchOnce(m, core, calls[n], stores[n]);
      seen, ok, acted := seen + [m.settings.values], ok + [done], acted + [what];
    }
    forall i, j | 0 <= i <= j < |seen| ensures DatesForward(seen[i], seen[j], core.instant) {
      ForwardChain(seen, core.instant, i, j);
    }
    forall i, j | 0 <= i < j < |seen| && ok[i] ensures RefusesOlder(seen[j], core.instant, acted[i]) {
      RememberedIsRefused(seen[i + 1], seen[j], core.instant, calls[i], acted[i]);
    }
  }

  lemma {:induction false} ForwardChain(seen: seq<Settings>, instant: string -> Option<int>, i: nat, j: nat)
    requires i <= j < |seen| && DatedRun(seen, instant)
    ensures DatesForward(seen[i], seen[j], instant)
    decreases j - i
  {
    if i < j {
      ForwardChain(seen, instant, i, j - 1);
    }
  }

  ghost predicate DatedRun(seen: seq<Settings>, instant: string -> Option<int>) {
    && (forall k | 0 <= k < |seen| :: DatesReadable(seen[k], instant))
    && (forall k | 0 < k < |seen| :: DatesForward(seen[k - 1], seen[k], instant))
  }

  lemma FetchedIsServed(instant: string -> Option<int>, s: Settings, feed: Feed, channel: string, m: Manifest)
    requires FetchVerified(instant, s, feed, channel) == Ok(m)
    ensures feed.manifests(channel) == Some(m) && m.releasedAt != "" && instant(m.releasedAt).Some?
  {
  }

  method FetchOnce(m: Manager.Manager, core: QrxCore.CoreManager, call: Fetch, st: Store.Store)
    returns (ok: bool, ghost acted: Acted)
    requires st.Sound() && core.settings == m.settings && core.instant == m.setup.instant
    requires DatesReadable(m.settings.values, core.instant)
    modifies m.settings, m.history, core, core.history, st
    ensures st.Sound()
    ensures DatesReadable(m.settings.values, core.instant)
    ensures DatesForward(old(m.settings.values), m.settings.values, core.instant)
    ensures ok ==> ServedBy(call, acted, core.instant)
                   && LastSeen(m.settings.values, acted.channel) == acted.releasedAt
  {
    hide Gate, Manager.CleanOutcome, Manager.InstallOutcome, Manager.RowsOf, Manager.OnlyBookkeeping;
    hide QrxCore.UpdateOutcome, QrxCore.UpdatedDisk, Releases.Traced, Releases.Performed, FetchVerified;
    acted := Acted("", "");
    match call {
      case ByManager(component, opts, feed, versions, windowOpen, outcomes) =>
        ghost var s, d := m.settings.values, st.disk;
        ghost var scene := Scene(s, d, feed, versions, windowOpen);
        ghost var gate := Gate(m.setup, scene, component, opts);
        var r := m.Install(component, opts, feed, versions, windowOpen, outcomes, st);
        ok := r.Ok?;
        if gate.Ok? {
          GateFetched(m.setup, scene, component, opts);
          FetchedIsServed(core.instant, s, feed, gate.value.channel, gate.value.manifest);
          BookkeepingMovesForward(s, m.settings.values, core.instant, feed, gate.value.channel,
                                  gate.value.manifest, component);
          acted := Acted(gate.value.channel, gate.value.manifest.releasedAt);
        }
      case ByCore(profile, expert, channel, allowDowngrade, feed, artifact, services) =>
        ghost var s, d := m.settings.values, st.disk;
        ghost var gate := core.UpdateGate(profile, expert, channel, allowDowngrade, feed, s, d);
        var err := core.Update(profile, expert, channel, allowDowngrade, feed, artifact, services, st);
        ok := err.None?;
        if gate.Ok? {
          core.UpdateGateFetched(profile, expert, channel, allowDowngrade, feed, s, d);
          FetchedIsServed(core.instant, s, feed, gate.value.channel, gate.value.manifest);
          BookkeepingMovesForward(s, m.settings.values, core.instant, feed, gate.value.channel,
                                  gate.value.manifest, QrxCore.COMPONENT);
          acted := Acted(gate.value.channel, gate.value.manifest.releasedAt);
        }
    }
  }
}
