// What Manager.Check reports and which gate stops Manager.Install, as functions of the state.
module Gates {
  import opened Prelude
  import opened Policy
  import opened Manifest
  import Matrix
  import Releases
  import SemVer
  import Verify

  /** A component's lifecycle hooks; `adapter` names the registry key of an adapter component. */
  datatype Controller = Controller(selfBinary: bool, requiresRestart: bool, adapter: Option<string>)

  /** The running versions; "" is "not known". */
  datatype Versions = Versions(suite: string, core: string, adapter: string)

  /** What the update source serves, and which manifests carry a valid signature. */
  datatype Feed = Feed(manifests: string -> Option<Manifest>, trusted: Manifest -> bool)

  /** Fixed at start-up; `instant` reads an RFC 3339 timestamp. */
  datatype Setup = Setup(
    controllers: map<string, Controller>,
    matrix: Option<seq<Matrix.Entry>>,
    instant: string -> Option<int>,
    retain: int)

  datatype Options = Options(channel: string, allowDowngrade: bool, manual: bool, force: bool)

  datatype Error =
    | UpdatesLocked | OutsideWindow
    | FetchFailed | MalformedManifest | InvalidSignature | UnreadableTimestamp | Replayed
    | NoUpdateForComponent | PinnedTo(version: string) | AlreadyInstalled | DowngradeBlocked | AlreadyPrevious
    | Incompatible | UnknownComponent | BlockedByMatrix
    | HistoryWrite | DownloadFailed | VerifyFailed | StageFailed | ExtractFailed | StopFailed | PromoteFailed
    | SettingsWrite | StartFailed | HealthCheckFailed
    | NoRollbackTarget | RollbackFailed

  /** The state both operations read. */
  datatype Scene = Scene(settings: Settings, disk: Releases.Disk, feed: Feed, versions: Versions, windowOpen: bool)

  function TextOf(o: Option<string>): string {
    match o case Some(v) => v case None => ""
  }

  /** Well-formed, carrying a valid signature, and not older than the last one seen on its channel. */
  predicate Acceptable(instant: string -> Option<int>, settings: Settings, feed: Feed, channel: string, m: Manifest) {
    var last := LastSeen(settings, channel);
    && IsValid(m, instant) && feed.trusted(m)
    && (last != "" ==>
          instant(m.releasedAt).Some? && instant(last).Some? && instant(m.releasedAt).value >= instant(last).value)
  }

  /** fetchVerifiedManifest: nothing in a manifest that fails this is looked at any further. */
  function FetchVerified(instant: string -> Option<int>, settings: Settings, feed: Feed, channel: string)
    : (r: Result<Manifest, Error>)
    ensures r.Ok? <==>
              feed.manifests(channel).Some?
              && Acceptable(instant, settings, feed, channel, feed.manifests(channel).value)
    ensures r.Ok? ==> Some(r.value) == feed.manifests(channel)
  {
    match feed.manifests(channel)
    case None => Err(FetchFailed)
    case Some(m) =>
      if !IsValid(m, instant) then Err(MalformedManifest)
      else if !feed.trusted(m) then Err(InvalidSignature)
      else match Verify.ReplayCheck(m.releasedAt, LastSeen(settings, channel), instant)
        case Fresh => Ok(m)
        case Stale => Err(Replayed)
        case Unreadable => Err(UnreadableTimestamp)
  }

  /** CheckAdapterCompatibility; components that are not adapters always pass. */
  predicate MatrixAllows(setup: Setup, component: string, versions: Versions, target: string) {
    && component in setup.controllers
    && (setup.controllers[component].adapter.Some? && setup.matrix.Some? ==>
          versions.core == ""
          || Matrix.Usable(Matrix.Lookup(setup.matrix.value, versions.core, setup.controllers[component].adapter.value,
                                         target)))
  }

  predicate Compatible(c: ComponentUpdate, v: Versions) {
    Verify.IsCompatible(c, v.suite, v.core, v.adapter)
  }

  datatype Offer = Offer(channel: string, manifest: Manifest, update: ComponentUpdate)

  /** The first gate that stops this update of the component, if any. */
  function OfferError(setup: Setup, s: Scene, component: string, allowDowngrade: bool, update: ComponentUpdate)
    : Option<Error>
  {
    var pin := TextAt(s.settings, Pin(component));
    var current := TextOf(s.disk.current);
    if pin.Some? && update.version != pin.value then Some(PinnedTo(pin.value))
    else if current != "" && current == update.version then Some(AlreadyInstalled)
    else if !Verify.NotDowngrade(current, update.version, allowDowngrade) then Some(DowngradeBlocked)
    else if s.disk.previous == Some(update.version) then Some(AlreadyPrevious)
    else if !Compatible(update, s.versions) then Some(Incompatible)
    else if component !in setup.controllers then Some(UnknownComponent)
    else if !MatrixAllows(setup, component, s.versions, update.version) then Some(BlockedByMatrix)
    else None
  }

  /**
   * The first gate that stops an install, or the offer it goes on with, which is neither the active
   * version nor the rollback target.
   */
  function Gate(setup: Setup, s: Scene, component: string, opts: Options): (r: Result<Offer, Error>)
    ensures r.Ok? ==> component in setup.controllers && r.value.update.version !in Releases.Named(s.disk)
  {
    if Locked(s.settings) && !opts.force then Err(UpdatesLocked)
    else if !opts.manual && !s.windowOpen then Err(OutsideWindow)
    else
      var channel :=
        if opts.channel == "" then ChannelOrDefault(s.settings, component, DEFAULT_CHANNEL) else opts.channel;
      match FetchVerified(setup.instant, s.settings, s.feed, channel)
      case Err(e) => Err(e)
      case Ok(m) =>
        if component !in m.components then Err(NoUpdateForComponent)
        else match OfferError(setup, s, component, opts.allowDowngrade, m.components[component])
          case Some(e) => Err(e)
          case None => Ok(Offer(channel, m, m.components[component]))
  }

  lemma GateFetched(setup: Setup, s: Scene, component: string, opts: Options)
    ensures var gate := Gate(setup, s, component, opts);
            gate.Ok? ==>
              && FetchVerified(setup.instant, s.settings, s.feed, gate.value.channel) == Ok(gate.value.manifest)
              && (opts.channel != "" ==> gate.value.channel == opts.channel)
  {
    hide FetchVerified;
  }

  /** When a served manifest is acted on, and which fault is reported otherwise. */
  lemma FetchExactly(instant: string -> Option<int>, settings: Settings, feed: Feed, channel: string)
    ensures var r, served := FetchVerified(instant, settings, feed, channel), feed.manifests(channel);
            && (r == Err(FetchFailed) <==> served.None?)
            && (served.Some? ==>
                  var m := served.value;
                  var wellFormed :=
                    && m.manifestVersion > 0 && m.channel != "" && m.suiteVersion != "" && m.signature != ""
                    && m.releasedAt != "" && instant(m.releasedAt).Some? && m.components != map[]
                    && forall name | name in m.components ::
                         && m.components[name].version != "" && m.components[name].url != ""
                         && m.components[name].sha256 != "" && m.components[name].signature != "";
                  var k := LastManifest(channel);
                  var last := if k in settings && settings[k].Text? then settings[k].text else "";
                  && (r == Err(MalformedManifest) <==> !wellFormed)
                  && (r == Err(InvalidSignature) <==> wellFormed && !feed.trusted(m))
                  && (r == Err(UnreadableTimestamp) <==>
                        wellFormed && feed.trusted(m) && last != "" && instant(last).None?)
                  && (r == Err(Replayed) <==>
                        wellFormed && feed.trusted(m) && last != "" && instant(last).Some?
                        && instant(m.releasedAt).value < instant(last).value)
                  && (r == Ok(m) <==>
                        wellFormed && feed.trusted(m)
                        && (last != "" ==> instant(last).Some? && instant(m.releasedAt).value >= instant(last).value))
                  && (r.Ok? ==> r == Ok(m)))
  {
  }

  /** An update is incompatible exactly if a running version is known and misses what its notes ask of it. */
  lemma IncompatibleExactly(u: ComponentUpdate, v: Versions)
    ensures !Compatible(u, v) <==>
            u.notes.Some? &&
            var n := u.notes.value;
            || (n.requiredQRXVersion != "" && v.core != "" && !SemVer.Satisfies(v.core, n.requiredQRXVersion))
            || (n.requiredAdapterVersion != "" && v.adapter != ""
                && !SemVer.Satisfies(v.adapter, n.requiredAdapterVersion))
            || (n.minSuiteVersion != "" && v.suite != "" && SemVer.Compare(v.suite, n.minSuiteVersion) < 0)
  {
    hide SemVer.Satisfies, SemVer.Compare;
  }

  /** The matrix stops exactly an adapter's update it has no good word for, once the running core is known. */
  lemma BlockedByMatrixExactly(setup: Setup, component: string, v: Versions, target: string)
    requires component in setup.controllers
    ensures !MatrixAllows(setup, component, v, target) <==>
            setup.controllers[component].adapter.Some? && setup.matrix.Some? && v.core != "" &&
            var status := Matrix.Lookup(setup.matrix.value, v.core, setup.controllers[component].adapter.value, target);
            status.Unsupported? || status.Unknown? || status.Other?
  {
    hide Matrix.Lookup;
  }

  /** What each refusal of an offered update means, in code order; none is refused for anything else. */
  lemma OfferExactly(setup: Setup, s: Scene, component: string, allowDowngrade: bool, u: ComponentUpdate)
    requires u.version != ""
    ensures var e := OfferError(setup, s, component, allowDowngrade, u);
            var p, current := Pin(component), s.disk.current;
            var pinned := p in s.settings && s.settings[p].Text? && s.settings[p].text != u.version;
            var same := current == Some(u.version);
            var older := current.Some? && current.value != "" && !allowDowngrade
                         && SemVer.Compare(u.version, current.value) < 0;
            var spare := s.disk.previous == Some(u.version);
            var apt, known := Compatible(u, s.versions), component in setup.controllers;
            && (pinned ==> e == Some(PinnedTo(s.settings[p].text)))
            && (e == Some(AlreadyInstalled) <==> !pinned && same)
            && (e == Some(DowngradeBlocked) <==> !pinned && !same && older)
            && (e == Some(AlreadyPrevious) <==> !pinned && !same && !older && spare)
            && (e == Some(Incompatible) <==> !pinned && !same && !older && !spare && !apt)
            && (e == Some(UnknownComponent) <==> !pinned && !same && !older && !spare && apt && !known)
            && (e == Some(BlockedByMatrix) <==>
                  !pinned && !same && !older && !spare && apt && known
                  && !MatrixAllows(setup, component, s.versions, u.version))
            && (e == None <==>
                  !pinned && !same && !older && !spare && apt && known
                  && MatrixAllows(setup, component, s.versions, u.version))
  {
    hide SemVer.Compare, Compatible, MatrixAllows;
  }

  /**
   * The gates from outside, in code order: what each refusal means, and that an install goes ahead
   * exactly when nothing stands against it.
   */
  lemma GateExactly(setup: Setup, s: Scene, component: string, opts: Options)
    ensures var r := Gate(setup, s, component, opts);
            var k := Channel(component);
            var channel := if opts.channel != "" then opts.channel
                           else if k in s.settings && s.settings[k].Text? then s.settings[k].text
                           else "stable";
            var fetched := FetchVerified(setup.instant, s.settings, s.feed, channel);
            var locked := Lock in s.settings && s.settings[Lock] == Text("true") && !opts.force;
            var late := !opts.manual && !s.windowOpen;
            && (r == Err(UpdatesLocked) <==> locked)
            && (r == Err(OutsideWindow) <==> !locked && late)
            && (!locked && !late && fetched.Err? ==> r == Err(fetched.error))
            && (r == Err(NoUpdateForComponent) <==>
                  !locked && !late && fetched.Ok? && component !in fetched.value.components)
            && (!locked && !late && fetched.Ok? && component in fetched.value.components ==>
                  var u := fetched.value.components[component];
                  var e := OfferError(setup, s, component, opts.allowDowngrade, u);
                  && u.version != ""
                  && r == if e.Some? then Err(e.value) else Ok(Offer(channel, fetched.value, u)))
  {
    hide FetchVerified, SemVer.Compare, Compatible, MatrixAllows, OfferError;
    var channel := if opts.channel == "" then ChannelOrDefault(s.settings, component, DEFAULT_CHANNEL)
                   else opts.channel;
    FetchExactly(setup.instant, s.settings, s.feed, channel);
    var fetched := FetchVerified(setup.instant, s.settings, s.feed, channel);
    OfferErrorKinds(setup, s, component, opts.allowDowngrade, fetched);
  }

  /** The gates of an offer report none of the faults found before there is one. */
  lemma OfferErrorKinds(setup: Setup, s: Scene, component: string, allowDowngrade: bool, r: Result<Manifest, Error>)
    ensures r.Ok? && component in r.value.components ==>
              var e := OfferError(setup, s, component, allowDowngrade, r.value.components[component]);
              e != Some(UpdatesLocked) && e != Some(OutsideWindow) && e != Some(NoUpdateForComponent)
  {
    hide SemVer.Compare, Compatible, MatrixAllows;
  }

  datatype CheckResult = CheckResult(
    component: string,
    channel: string,
    current: string,
    latest: string,
    updateAvailable: bool,
    pinned: bool,
    compatible: bool,
    blockReason: Option<Error>,
    restartRequired: bool,
    rollbackAvailable: bool,
    checkError: Option<Error>)
  {
    predicate Blocked() {
      blockReason.Some?
    }
  }

  /** What an operator is told, before any manifest is looked at. */
  function LocalView(setup: Setup, s: Scene, component: string): CheckResult
    requires component in setup.controllers
  {
    CheckResult(component, ChannelOrDefault(s.settings, component, DEFAULT_CHANNEL), TextOf(s.disk.current), "",
                false, TextAt(s.settings, Pin(component)).Some?, false, None,
                setup.controllers[component].requiresRestart, s.disk.previous.Some?, None)
  }

  /** The reason Check gives first: a pin, then the release notes, then the matrix. */
  function BlockReason(setup: Setup, s: Scene, component: string, update: ComponentUpdate): Option<Error> {
    var pin := TextAt(s.settings, Pin(component));
    if pin.Some? && update.version != pin.value then Some(PinnedTo(pin.value))
    else if !Compatible(update, s.versions) then Some(Incompatible)
    else if !MatrixAllows(setup, component, s.versions, update.version) then Some(BlockedByMatrix)
    else None
  }

  function CheckOf(setup: Setup, s: Scene, component: string): Result<CheckResult, Error> {
    if component !in setup.controllers then Err(UnknownComponent)
    else
      var local := LocalView(setup, s, component);
      match FetchVerified(setup.instant, s.settings, s.feed, local.channel)
      case Err(e) => Ok(local.(checkError := Some(e)))
      case Ok(m) =>
        if component !in m.components then Ok(local)
        else
          var update := m.components[component];
          Ok(local.(latest := update.version,
                    updateAvailable := local.current == "" || SemVer.Compare(update.version, local.current) > 0,
                    compatible := Compatible(update, s.versions)
                                  && MatrixAllows(setup, component, s.versions, update.version),
                    blockReason := BlockReason(setup, s, component, update)))
  }

  /**
   * A report from outside: an unknown component is refused; everything local is always reported; and
   * of an update the manifest lists, its version, whether it is newer, fits, and why it is blocked.
   */
  lemma CheckExactly(setup: Setup, s: Scene, component: string)
    ensures var c := CheckOf(setup, s, component);
            && (component !in setup.controllers <==> c == Err(UnknownComponent))
            && (component in setup.controllers ==>
                  && c.Ok?
                  && var r := c.value;
                     var k, p := Channel(component), Pin(component);
                     var channel := if k in s.settings && s.settings[k].Text? then s.settings[k].text else "stable";
                     var fetched := FetchVerified(setup.instant, s.settings, s.feed, channel);
                     var listed := fetched.Ok? && component in fetched.value.components;
                     && r.component == component && r.channel == channel
                     && (if s.disk.current.Some? then s.disk.current == Some(r.current) else r.current == "")
                     && (r.rollbackAvailable <==> s.disk.previous.Some?)
                     && (r.restartRequired <==> setup.controllers[component].requiresRestart)
                     && (r.pinned <==> p in s.settings && s.settings[p].Text?)
                     && r.checkError == (if fetched.Err? then Some(fetched.error) else None)
                     && (!listed ==> r.latest == "" && !r.updateAvailable && !r.compatible && !r.Blocked())
                     && (listed ==>
                           var u := fetched.value.components[component];
                           var elsewhere := r.pinned && s.settings[p].text != u.version;
                           var apt := Compatible(u, s.versions);
                           var allowed := MatrixAllows(setup, component, s.versions, u.version);
                           && r.latest == u.version
                           && (r.updateAvailable <==> r.current == "" || SemVer.Compare(u.version, r.current) > 0)
                           && (r.compatible <==> apt && allowed)
                           && r.blockReason == if elsewhere then Some(PinnedTo(s.settings[p].text))
                                               else if !apt then Some(Incompatible)
                                               else if !allowed then Some(BlockedByMatrix)
                                               else None))
  {
    hide FetchVerified, SemVer.Compare, Compatible, MatrixAllows;
  }

  /** Options for the install an operator would start after looking at a check. */
  predicate FollowsCheck(r: CheckResult, s: Scene, opts: Options) {
    && (opts.channel == r.channel || opts.channel == "")
    && opts.manual
    && (Locked(s.settings) ==> opts.force)
  }

  /** The check found an available, unblocked update that is not the rollback target, and opts follow it. */
  predicate Promising(check: Result<CheckResult, Error>, s: Scene, opts: Options) {
    check.Ok? &&
    var r := check.value;
    && FollowsCheck(r, s, opts)
    && r.updateAvailable && !r.Blocked() && r.checkError.None? && s.disk.previous != Some(r.latest)
  }

  /** What such a check has seen of the manifest and of the running system. */
  lemma PromiseExplained(setup: Setup, s: Scene, component: string, opts: Options)
    ensures Promising(CheckOf(setup, s, component), s, opts) ==>
              var channel := ChannelOrDefault(s.settings, component, DEFAULT_CHANNEL);
              var fetched := FetchVerified(setup.instant, s.settings, s.feed, channel);
              && component in setup.controllers && fetched.Ok? && component in fetched.value.components
              && var update := fetched.value.components[component];
                 && BlockReason(setup, s, component, update).None?
                 && (TextOf(s.disk.current) == "" || SemVer.Compare(update.version, TextOf(s.disk.current)) > 0)
                 && (opts.channel == channel || opts.channel == "")
                 && opts.manual && (Locked(s.settings) ==> opts.force)
                 && s.disk.previous != Some(update.version)
                 && update.version == CheckOf(setup, s, component).value.latest
  {
    hide FetchVerified, BlockReason, Compatible, MatrixAllows, SemVer.Compare;
  }

  /** Such an update passes every gate. */
  lemma CheckPredictsInstall(setup: Setup, s: Scene, component: string, opts: Options)
    ensures Promising(CheckOf(setup, s, component), s, opts) ==>
              var gate := Gate(setup, s, component, opts);
              gate.Ok? && gate.value.update.version == CheckOf(setup, s, component).value.latest
  {
    hide FetchVerified, CheckOf, Compatible, MatrixAllows, SemVer.Compare;
    PromiseExplained(setup, s, component, opts);
    SemVer.CompareToItself(TextOf(s.disk.current));
  }

  /** A blocked check means no options at all get an install on that channel past the gates. */
  lemma BlockedMeansGateFails(setup: Setup, s: Scene, component: string, opts: Options)
    requires CheckOf(setup, s, component).Ok? && CheckOf(setup, s, component).value.Blocked()
    requires opts.channel == CheckOf(setup, s, component).value.channel || opts.channel == ""
    ensures Gate(setup, s, component, opts).Err?
  {
    hide FetchVerified, Compatible, MatrixAllows, SemVer.Compare;
  }

  /** Conversely, what passes the gates without a downgrade is reported available and unblocked. */
  lemma InstallableIsReported(setup: Setup, s: Scene, component: string, opts: Options)
    requires CheckOf(setup, s, component).Ok? && FollowsCheck(CheckOf(setup, s, component).value, s, opts)
    ensures !opts.allowDowngrade && Gate(setup, s, component, opts).Ok? ==>
            var r := CheckOf(setup, s, component).value;
            var target := Gate(setup, s, component, opts).value.update.version;
            && !r.Blocked() && r.checkError.None? && r.compatible && r.latest == target
            && (r.updateAvailable <==> r.current == "" || SemVer.Compare(target, r.current) != 0)
  {
    hide FetchVerified, Compatible, MatrixAllows, SemVer.Parse;
  }
}
