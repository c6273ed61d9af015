// agent/updates/qrx_core.go: the separate, more conservative manager of QRX Core itself.
module QrxCore {
  import opened Prelude
  import opened Policy
  import opened Manifest
  import opened Gates
  import Lex
  import Manager
  import Releases
  import SemVer
  import Store
  import Verify

  type Disk = Releases.Disk

  const COMPONENT := "qrx_core"

  /* ---------- Switch safety ---------- */

  /** A recorded judgement; any text but the two known ones counts as not recorded. */
  datatype Judgement = SwitchCompatible | SwitchIncompatible | NotRecorded(text: UnrecordedText)

  type UnrecordedText = s: string | s != "compatible" && s != "incompatible"

  datatype SwitchSafety = SwitchSafety(
    blockchainData: Judgement, configuration: Judgement, wallet: Judgement, adapter: Judgement, network: Judgement)
  {
    function Dimensions(): seq<Judgement> {
      [blockchainData, configuration, wallet, adapter, network]
    }

    predicate AllKnown() {
      forall d | d in Dimensions() :: !d.NotRecorded?
    }

    predicate AnyIncompatible() {
      exists d | d in Dimensions() :: d.SwitchIncompatible?
    }
  }

  datatype Profile = Profile(coreVersion: string, safety: SwitchSafety)

  datatype CoreError =
    | ProfileRequired | SafetyIncompatible | SafetyUnknown | NotInstalled | SwitchFailed | ValidationFailed
    | Because(cause: Error)

  function CheckSwitchSafety(p: Profile, expertOverride: bool): Option<CoreError> {
    if p.safety.AnyIncompatible() then Some(SafetyIncompatible)
    else if !p.safety.AllKnown() && !expertOverride then Some(SafetyUnknown)
    else None
  }

  /**
   * All five judgements count: a switch is safe exactly if each says compatible or, with the override,
   * at least none says incompatible; an incompatibility is what is reported first.
   */
  lemma SwitchSafetyExactly(p: Profile, expertOverride: bool)
    ensures var s, e := p.safety, CheckSwitchSafety(p, expertOverride);
            && (e == None <==>
                  && (s.blockchainData.SwitchCompatible? || (expertOverride && s.blockchainData.NotRecorded?))
                  && (s.configuration.SwitchCompatible? || (expertOverride && s.configuration.NotRecorded?))
                  && (s.wallet.SwitchCompatible? || (expertOverride && s.wallet.NotRecorded?))
                  && (s.adapter.SwitchCompatible? || (expertOverride && s.adapter.NotRecorded?))
                  && (s.network.SwitchCompatible? || (expertOverride && s.network.NotRecorded?)))
            && (e == Some(SafetyIncompatible) <==>
                  s.blockchainData.SwitchIncompatible? || s.configuration.SwitchIncompatible?
                  || s.wallet.SwitchIncompatible? || s.adapter.SwitchIncompatible? || s.network.SwitchIncompatible?)
            && (e.Some? ==> e == Some(SafetyIncompatible) || e == Some(SafetyUnknown))
  {
    var s := p.safety;
    var ds := s.Dimensions();
    assert ds[0] == s.blockchainData && ds[1] == s.configuration && ds[2] == s.wallet && ds[3] == s.adapter
           && ds[4] == s.network;
  }

  datatype Health = Health(available: bool, processRunning: bool, networkConnected: bool, blockHeightProgressing: bool)
  {
    predicate Healthy() {
      available && processRunning && networkConnected && blockHeightProgressing
    }
  }

  /* ---------- Where an activation leaves the disk ---------- */

  datatype Kind = Switch | Update

  function SwitchedTo(d: Disk, target: string): Disk {
    if d.current == Some(target) then d else Releases.Swapped(d, target)
  }

  /** The binary fallback: `from` becomes current again, if it is still installed. */
  function FellBack(d: Disk, from: string): Disk {
    if from in d.releases then SwitchedTo(d, from) else d
  }

  /** The disk names the target, and `from` is the installed version to go back to. */
  predicate Landed(d: Disk, target: string, from: string) {
    d.current == Some(target) && from in d.releases && (target == from || d.previous == Some(from))
  }

  /** Both ways to a new version land, with the old version's directory as it was. */
  lemma ActivationLands(pre: Disk, target: string, from: string, files: seq<(string, string)>)
    requires pre.current == Some(from) && from in pre.releases
    ensures target in pre.releases ==>
              Landed(SwitchedTo(pre, target), target, from)
              && Releases.DirOf(SwitchedTo(pre, target), from) == Releases.DirOf(pre, from)
    ensures target !in Releases.Named(pre) ==>
              var d := Manager.Promoted(Manager.Prepared(pre, target, files), target);
              Landed(d, target, from) && Releases.DirOf(d, from) == Releases.DirOf(pre, from)
  {
  }

  /**
   * Once landed, the fallback ends on exactly `from`, its directory untouched; a commit ends on the
   * target and keeps `from` through the prune, finished or not, so that switching back is never
   * refused as missing.
   */
  lemma FallbackAndSwitchBack(d: Disk, target: string, from: string, n: int, pruned: Disk)
    requires Landed(d, target, from) && Releases.Thinned(d, pruned, n)
    ensures var e := FellBack(d, from);
            && e.current == Some(from) && Releases.DirOf(e, from) == Releases.DirOf(d, from)
            && (target != from ==> e.previous == Some(target))
    ensures pruned.current == Some(target) && Releases.DirOf(pruned, from) == Releases.DirOf(d, from)
    ensures Landed(SwitchedTo(pruned, from), from, from)
    ensures target != from ==> pruned.previous == Some(from) && SwitchedTo(pruned, from).previous == Some(target)
  {
    assert from in Releases.Named(d);
  }

  /** How each thing outside the manager's control turns out during one activation. */
  datatype Services = Services(
    stopped: bool, started: bool, probe: Option<Health>, stoppedAgain: bool, startedAgain: bool)
  {
    predicate CanFallBack() {
      stoppedAgain && startedAgain
    }

    predicate Works() {
      started && probe.Some? && probe.value.Healthy()
    }
  }

  datatype Artifact = Artifact(delivery: Manager.Delivery, binary: string)
  {
    /** writeCoreBinary: one file. */
    function Files(): seq<(string, string)> {
      [("qrxd", binary)]
    }
  }

  class CoreManager {
    const settings: SettingsStore
    const history: HistoryStore
    const instant: string -> Option<int>
    const retain: int
    /** The version whose release directory StartCore last started successfully. */
    var lastStarted: Option<string>

    constructor (settings: SettingsStore, history: HistoryStore, instant: string -> Option<int>, retain: int)
      ensures this.settings == settings && this.history == history && this.instant == instant && this.retain == retain
    {
      this.settings := settings;
      this.history := history;
      this.instant := instant;
      this.retain := retain;
      lastStarted := None;
    }

    function RetainVersions(): (n: int)
      ensures n > 0 && (retain > 0 ==> n == retain) && (retain <= 0 ==> n == 2)
    {
      if retain <= 0 then 2 else retain
    }

    /** Failed settings, history and pointer writes; failed directory steps do not count. */
    ghost function Faults(st: Store.Store): nat
      reads settings, history, st
    {
      settings.faults + history.faults + st.pointerFaults
    }

    method StartCore(version: string, works: bool) returns (ok: bool)
      modifies this
      ensures ok == works && lastStarted == if works then Some(version) else old(lastStarted)
    {
      if works {
        lastStarted := Some(version);
      }
      ok := works;
    }

    method RollbackBinary(target: string, from: string, sv: Services, st: Store.Store) returns (err: CoreError)
      requires st.Sound()
      modifies this, history, st
      ensures st.Sound() && st.wreck == old(st.wreck) && old(st.trail) <= st.trail
      ensures Faults(st) >= old(Faults(st)) && st.directoryFaults == old(st.directoryFaults)
      ensures st.disk.current == old(st.disk.current) || st.disk.current == Some(from)
      ensures from == "" ==> st.disk == old(st.disk)
      ensures err == ValidationFailed ==>
                history.rows == old(history.rows) + [Record("qrx_core", from, target, "", RolledBack, true, "", 0)]
      ensures err == ValidationFailed || err == Because(HistoryWrite)
      ensures Faults(st) == old(Faults(st)) ==>
                && err == ValidationFailed
                && st.disk == (if from != "" then FellBack(old(st.disk), from) else old(st.disk))
                && lastStarted == (if from != "" && from in old(st.disk.releases) && sv.CanFallBack()
                                   then Some(from) else old(lastStarted))
                && history.rows == old(history.rows) + [Record(COMPONENT, from, target, "", RolledBack, true, "", 0)]
    {
      if from != "" {
        var promoted := st.PromoteVersion(from);
        if promoted.None? {
          if sv.stoppedAgain {
            var _ := StartCore(from, sv.startedAgain);
          }
        }
      }
      var id := history.Insert(Record(COMPONENT, from, target, "", RolledBack, true, "", 0));
      return if id.None? then Because(HistoryWrite) else ValidationFailed;
    }

    /** Stop, activate (a switch promotes only now), start, validate; then commit or fall back. */
    method ActivateAndValidate(target: string, from: string, kind: Kind, sv: Services, st: Store.Store)
      returns (err: Option<CoreError>)
      requires st.Sound()
      requires kind.Switch? ==> target in st.disk.releases
      modifies this, history, st
      ensures st.Sound() && st.wreck == old(st.wreck) && old(st.trail) <= st.trail
      ensures Faults(st) >= old(Faults(st)) && st.directoryFaults >= old(st.directoryFaults)
      ensures st.disk.current == old(st.disk.current) || st.disk.current == Some(from)
              || st.disk.current == Some(target)
      ensures !sv.stopped ==> err == Some(Because(StopFailed)) && st.disk == old(st.disk)
                              && lastStarted == old(lastStarted)
                              && history.rows == old(history.rows)
      ensures err.None? ==>
                && sv.stopped && sv.Works() && lastStarted == Some(target)
                && history.rows == old(history.rows) + [Record("qrx_core", from, target, "", Succeeded, false, "", 0)]
      ensures err == Some(ValidationFailed) ==>
                && sv.stopped && !sv.Works()
                && history.rows == old(history.rows) + [Record("qrx_core", from, target, "", RolledBack, true, "", 0)]
      ensures sv.stopped && Faults(st) == old(Faults(st)) ==>
                var d := if kind.Switch? then SwitchedTo(old(st.disk), target) else old(st.disk);
                && err == (if sv.Works() then None else Some(ValidationFailed))
                && lastStarted == StartedLast(sv, target, from, old(st.disk).releases.Keys, old(lastStarted))
                && history.rows == old(history.rows) + [ActivationRow(target, from, sv)]
                && (if sv.Works() then Releases.Thinned(d, st.disk, RetainVersions())
                    else st.disk == if from != "" then FellBack(d, from) else d)
                && (sv.Works() && st.directoryFaults == old(st.directoryFaults) ==>
                      st.disk == Releases.Pruned(d, RetainVersions()))
    {
      hide Releases.Traced, Releases.Performed, Releases.Thinned, Releases.Pruned;
      if kind.Switch? {
        if !sv.stopped {
          return Some(Because(StopFailed));
        }
        var promoted := st.PromoteVersion(target);
        if promoted.Some? {
          return Some(SwitchFailed);
        }
      } else if !sv.stopped {
        return Some(Because(StopFailed));
      }
      var started := StartCore(target, sv.started);
      if !started {
        var failure := RollbackBinary(target, from, sv, st);
        return Some(failure);
      }
      if sv.probe.None? || !sv.probe.value.Healthy() {
        var failure := RollbackBinary(target, from, sv, st);
        return Some(failure);
      }
      var _ := st.Prune(RetainVersions());
      var id := history.Insert(Record(COMPONENT, from, target, "", Succeeded, false, "", 0));
      if id.None? {
        return Some(Because(HistoryWrite));
      }
      return None;
    }

    /** Why a switch is refused before anything is touched. */
    function SwitchGate(target: string, profile: Option<Profile>, expertOverride: bool, installed: set<string>)
      : Option<CoreError>
    {
      if profile.None? || profile.value.coreVersion != target then Some(ProfileRequired)
      else match CheckSwitchSafety(profile.value, expertOverride)
        case Some(e) => Some(e)
        case None => if target !in installed then Some(NotInstalled) else None
    }

    /** A switch goes ahead exactly with a safe profile of an installed target. */
    lemma SwitchGateExactly(target: string, profile: Option<Profile>, expertOverride: bool, installed: set<string>)
      ensures var e := SwitchGate(target, profile, expertOverride, installed);
              var described := profile.Some? && profile.value.coreVersion == target;
              && (e == Some(ProfileRequired) <==> !described)
              && (described ==>
                    var unsafety := CheckSwitchSafety(profile.value, expertOverride);
                    && (unsafety.Some? ==> e == unsafety)
                    && (e == Some(NotInstalled) <==> unsafety.None? && target !in installed)
                    && (e == None <==> unsafety.None? && target in installed))
    {
      if profile.Some? {
        SwitchSafetyExactly(profile.value, expertOverride);
      }
    }

    /** Activates an already-installed version. */
    method SwitchVersion(target: string, profile: Option<Profile>, expertOverride: bool, sv: Services, st: Store.Store)
      returns (err: Option<CoreError>)
      requires st.Sound()
      modifies this, history, st
      ensures st.Sound() && st.wreck == old(st.wreck) && old(st.trail) <= st.trail
      ensures Faults(st) >= old(Faults(st)) && st.directoryFaults >= old(st.directoryFaults)
      ensures err.None? ==> sv.stopped && sv.Works() && lastStarted == Some(target)
      ensures err == Some(ValidationFailed) ==> sv.stopped && !sv.Works()
      ensures var gate := SwitchGate(target, profile, expertOverride, old(st.disk.releases.Keys));
              var from := TextOf(old(st.disk.current));
              && (gate.Some? ==> err == gate && st.disk == old(st.disk) && history.rows == old(history.rows)
                                 && lastStarted == old(lastStarted))
              && (gate.None? && !sv.stopped ==> err == Some(Because(StopFailed)) && st.disk == old(st.disk)
                                                && lastStarted == old(lastStarted) && history.rows == old(history.rows))
              && (gate.None? && sv.stopped && Faults(st) == old(Faults(st)) ==>
                    && err == (if sv.Works() then None else Some(ValidationFailed))
                    && lastStarted == StartedLast(sv, target, from, old(st.disk).releases.Keys, old(lastStarted))
                    && history.rows == old(history.rows) + [ActivationRow(target, from, sv)]
                    && (if sv.Works() then Releases.Thinned(SwitchedTo(old(st.disk), target), st.disk, RetainVersions())
                        else st.disk == if from != "" then FellBack(SwitchedTo(old(st.disk), target), from)
                                        else SwitchedTo(old(st.disk), target)))
    {
      hide Releases.Traced, Releases.Performed;
      if profile.None? || profile.value.coreVersion != target {
        return Some(ProfileRequired);
      }
      var unsafety := CheckSwitchSafety(profile.value, expertOverride);
      if unsafety.Some? {
        return unsafety;
      }
      var installed := st.InstalledVersions();
      Lex.InElements(target, installed);
      if target !in installed {
        return Some(NotInstalled);
      }
      err := ActivateAndValidate(target, TextOf(st.disk.current), Switch, sv, st);
    }

    /** Why an update is refused before anything is downloaded, or what it goes on with. */
    function UpdateGate(profile: Option<Profile>, expertOverride: bool, channel: string, allowDowngrade: bool,
                        feed: Feed, s: Settings, d: Disk): Result<Offer, CoreError>
    {
      if profile.None? then Err(ProfileRequired)
      else match CheckSwitchSafety(profile.value, expertOverride)
        case Some(e) => Err(e)
        case None =>
          var ch := if channel == "" then ChannelOrDefault(s, COMPONENT, DEFAULT_CHANNEL) else channel;
          match FetchVerified(instant, s, feed, ch)
          case Err(e) => Err(Because(e))
          case Ok(m) =>
            if COMPONENT !in m.components then Err(Because(NoUpdateForComponent))
            else if profile.value.coreVersion != m.components[COMPONENT].version then Err(ProfileRequired)
            else if !Verify.NotDowngrade(TextOf(d.current), m.components[COMPONENT].version, allowDowngrade) then
              Err(Because(DowngradeBlocked))
            else Ok(Offer(ch, m, m.components[COMPONENT]))
    }

    /**
     * An update goes ahead exactly with a safe profile that describes the very version on offer, unless
     * that is an unconfirmed downgrade; each refusal in code order.
     */
    lemma UpdateGateExactly(profile: Option<Profile>, expertOverride: bool, channel: string, allowDowngrade: bool,
                            feed: Feed, s: Settings, d: Disk)
      ensures var r := UpdateGate(profile, expertOverride, channel, allowDowngrade, feed, s, d);
              var k := Channel("qrx_core");
              var ch := if channel != "" then channel
                        else if k in s && s[k].Text? then s[k].text
                        else "stable";
              var fetched := FetchVerified(instant, s, feed, ch);
              && (profile.None? ==> r == Err(ProfileRequired))
              && (profile.Some? ==>
                    var unsafety := CheckSwitchSafety(profile.value, expertOverride);
                    && (unsafety.Some? ==> r == Err(unsafety.value))
                    && (unsafety.None? && fetched.Err? ==> r == Err(Because(fetched.error)))
                    && (unsafety.None? && fetched.Ok? && "qrx_core" !in fetched.value.components ==>
                          r == Err(Because(NoUpdateForComponent)))
                    && (unsafety.None? && fetched.Ok? && "qrx_core" in fetched.value.components ==>
                          var u := fetched.value.components["qrx_core"];
                          var described := profile.value.coreVersion == u.version;
                          var older := d.current.Some? && d.current.value != "" && !allowDowngrade
                                       && SemVer.Compare(u.version, d.current.value) < 0;
                          && (r == Err(ProfileRequired) <==> !described)
                          && (r == Err(Because(DowngradeBlocked)) <==> described && older)
                          && (r == Ok(Offer(ch, fetched.value, u)) <==> described && !older)))
    {
      hide FetchVerified, SemVer.Compare;
    }

    lemma UpdateGateFetched(profile: Option<Profile>, expertOverride: bool, channel: string, allowDowngrade: bool,
                            feed: Feed, s: Settings, d: Disk)
      ensures var gate := UpdateGate(profile, expertOverride, channel, allowDowngrade, feed, s, d);
              gate.Ok? ==>
                && FetchVerified(instant, s, feed, gate.value.channel) == Ok(gate.value.manifest)
                && (channel != "" ==> gate.value.channel == channel)
    {
      hide FetchVerified;
    }

    /** Stages and promotes the binary; None once `current` names the target. */
    method FetchAndPromote(offer: Offer, a: Artifact, st: Store.Store) returns (err: Option<CoreError>)
      requires st.Sound()
      modifies st
      ensures st.Sound() && old(st.trail) <= st.trail
      ensures st.pointerFaults >= old(st.pointerFaults) && st.directoryFaults >= old(st.directoryFaults)
      ensures old(st.wreck).Some? ==> st.wreck == old(st.wreck)
      ensures old(st.wreck).None? && st.wreck.Some? ==>
                && err == Some(Because(PromoteFailed)) && st.pointerFaults > old(st.pointerFaults)
                && st.disk.current == Some(offer.update.version) && offer.update.version !in st.disk.releases
      ensures st.disk.current == old(st.disk.current) || st.disk.current == Some(offer.update.version)
      ensures err.Some? ==> err.value.Because? && !err.value.cause.StopFailed?
      ensures err.None? ==>
                && FetchError(a, offer.update.version, old(st.disk)).None? && st.pointerFaults == old(st.pointerFaults)
                && st.wreck == old(st.wreck) && st.disk == Fetched(old(st.disk), offer.update.version, a)
      ensures err.Some? && st.pointerFaults == old(st.pointerFaults) ==>
                && (err == FetchError(a, offer.update.version, old(st.disk))
                    || UnpackFails(a, offer.update.version, old(st.disk), err.value))
                && Releases.Aside(st.disk, offer.update.version) == Releases.Aside(old(st.disk), offer.update.version)
                && (offer.update.version in Releases.Named(old(st.disk)) ==> st.disk == old(st.disk))
      ensures st.pointerFaults == old(st.pointerFaults) && st.directoryFaults == old(st.directoryFaults) ==>
                && err == FetchError(a, offer.update.version, old(st.disk))
                && (err.Some? ==> st.disk == GaveUp(a, offer.update.version, old(st.disk)))
    {
      hide Releases.Traced, Releases.Performed;
      var target := offer.update.version;
      // DOWNLOAD
      if !a.delivery.fetched || !a.delivery.tempCreated || !a.delivery.copied {
        return Some(Because(DownloadFailed));
      }
      // VERIFY
      if !a.delivery.verified {
        return Some(Because(VerifyFailed));
      }
      var failure := Manager.Unpack(target, a.Files(), a.delivery.reopened, a.delivery.complete, st);
      if failure.Some? {
        return Some(Because(failure.value));
      }
      var promoted := Manager.PromoteOrDiscard(target, st);
      if !promoted {
        return Some(Because(PromoteFailed));
      }
      return None;
    }

    /** The refusals of Update, in the order the code tries them. */
    method PassUpdateGates(profile: Option<Profile>, expertOverride: bool, channel: string, allowDowngrade: bool,
                           feed: Feed, disk: Disk)
      returns (r: Result<Offer, CoreError>)
      ensures r == UpdateGate(profile, expertOverride, channel, allowDowngrade, feed, settings.values, disk)
    {
      if profile.None? {
        return Err(ProfileRequired);
      }
      var unsafety := CheckSwitchSafety(profile.value, expertOverride);
      if unsafety.Some? {
        return Err(unsafety.value);
      }
      var ch := channel;
      if ch == "" {
        ch := ChannelOrDefault(settings.values, COMPONENT, DEFAULT_CHANNEL);
      }
      var fetched := FetchVerified(instant, settings.values, feed, ch);
      if fetched.Err? {
        return Err(Because(fetched.error));
      }
      var mf := fetched.value;
      if COMPONENT !in mf.components {
        return Err(Because(NoUpdateForComponent));
      }
      var update := mf.components[COMPONENT];
      if profile.value.coreVersion != update.version {
        return Err(ProfileRequired);
      }
      if !Verify.NotDowngrade(TextOf(disk.current), update.version, allowDowngrade) {
        return Err(Because(DowngradeBlocked));
      }
      return Ok(Offer(ch, mf, update));
    }

    /** Fetches, verifies, installs and validates a new version; always an explicit call. */
    method Update(profile: Option<Profile>, expertOverride: bool, channel: string, allowDowngrade: bool,
                  feed: Feed, a: Artifact, sv: Services, st: Store.Store)
      returns (err: Option<CoreError>)
      requires st.Sound()
      modifies this, settings, history, st
      ensures st.Sound() && old(st.trail) <= st.trail
      ensures Faults(st) >= old(Faults(st)) && st.directoryFaults >= old(st.directoryFaults)
      ensures old(st.wreck).Some? ==> st.wreck == old(st.wreck)
      ensures Faults(st) == old(Faults(st)) ==> st.wreck == old(st.wreck)
      ensures var gate := UpdateGate(profile, expertOverride, channel, allowDowngrade, feed, old(settings.values),
                                     old(st.disk));
              && (gate.Err? ==> err == Some(gate.error) && st.disk == old(st.disk)
                                && settings.values == old(settings.values)
                                && history.rows == old(history.rows) && lastStarted == old(lastStarted)
                                && st.wreck == old(st.wreck))
              && (gate.Ok? ==>
                    && (st.disk.current == old(st.disk.current) || st.disk.current == Some(TextOf(old(st.disk.current)))
                        || st.disk.current == Some(gate.value.update.version))
                    && Manager.OnlyBookkeeping(old(settings.values), settings.values, gate.value.channel,
                                               gate.value.manifest.releasedAt, COMPONENT))
              && (gate.Ok? && (err.None? || err == Some(ValidationFailed) || err == Some(Because(StopFailed))) ==>
                    && TextAt(settings.values, LastManifest(gate.value.channel)) == Some(gate.value.manifest.releasedAt)
                    && (err.None? ==> sv.stopped && sv.Works() && lastStarted == Some(gate.value.update.version))
                    && (err == Some(ValidationFailed) ==> sv.stopped && !sv.Works()))
              && (err.None? ==> gate.Ok?)
              && (gate.Ok? && old(st.wreck).None? && st.wreck.Some? ==>
                    && err == Some(Because(PromoteFailed))
                    && st.disk.current == Some(gate.value.update.version)
                    && gate.value.update.version !in st.disk.releases)
              && (gate.Ok? && Faults(st) == old(Faults(st)) ==>
                    UpdateOutcome(gate.value.update.version, a, sv, RetainVersions(), old(st.disk), st.disk,
                                  old(lastStarted), lastStarted, old(history.rows), history.rows, err))
              && (gate.Ok? && Faults(st) == old(Faults(st)) && st.directoryFaults == old(st.directoryFaults) ==>
                    && err == UpdateError(a, sv, gate.value.update.version, old(st.disk))
                    && st.disk == UpdatedDisk(a, sv, gate.value.update.version, RetainVersions(), old(st.disk)))
    {
      hide Releases.Traced, Releases.Performed, Manager.OnlyBookkeeping, UpdateGate, FetchVerified;
      var gate := PassUpdateGates(profile, expertOverride, channel, allowDowngrade, feed, st.disk);
      if gate.Err? {
        return Some(gate.error);
      }
      Manager.BookkeepingOf(settings.values, gate.value.channel, gate.value.manifest.releasedAt, COMPONENT);
      var from := TextOf(st.disk.current);
      var failure := FetchAndPromote(gate.value, a, st);
      if failure.Some? {
        return failure;
      }
      var seen := settings.Set(LastManifest(gate.value.channel), Text(gate.value.manifest.releasedAt));
      if !seen {
        return Some(Because(SettingsWrite));
      }
      err := ActivateAndValidate(gate.value.update.version, from, Kind.Update, sv, st);
    }
  }

  /** The version StartCore started last, after an activation that got past its stop. */
  function StartedLast(sv: Services, target: string, from: string, installed: set<string>, before: Option<string>)
    : Option<string>
  {
    if !sv.Works() && from != "" && from in installed && sv.CanFallBack() then Some(from)
    else if sv.started then Some(target)
    else before
  }

  function ActivationRow(target: string, from: string, sv: Services): Record {
    Record(COMPONENT, from, target, "", if sv.Works() then Succeeded else RolledBack, !sv.Works(), "", 0)
  }

  /** The first thing that goes wrong before the target is promoted; a live release is never staged over. */
  function FetchError(a: Artifact, target: string, pre: Disk): Option<CoreError> {
    if a.delivery.Downloaded() && target in Releases.Named(pre) then Some(Because(StageFailed))
    else
      match Manager.PrepareError(a.delivery)
      case Some(e) => Some(Because(e))
      case None => None
  }

  predicate UnpackFails(a: Artifact, target: string, pre: Disk, e: CoreError) {
    target !in Releases.Named(pre) && e.Because? && Manager.FailsOnDisk(a.delivery, e.cause)
  }

  /** The disk once the target is unpacked and current. */
  function Fetched(pre: Disk, target: string, a: Artifact): Disk {
    Manager.Promoted(Manager.Prepared(pre, target, a.Files()), target)
  }

  /** A failed fetch leaves the disk alone, or without the target once staging had begun. */
  function GaveUp(a: Artifact, target: string, pre: Disk): Disk {
    if a.delivery.Downloaded() && target !in Releases.Named(pre) then
      Manager.GivenUp(Manager.Prepared(pre, target, a.Files()), target)
    else pre
  }

  /** How an update that passed its gates ends when every file-system step succeeds. */
  function UpdateError(a: Artifact, sv: Services, target: string, pre: Disk): Option<CoreError> {
    if FetchError(a, target, pre).Some? then FetchError(a, target, pre)
    else if !sv.stopped then Some(Because(StopFailed))
    else if sv.Works() then None
    else Some(ValidationFailed)
  }

  function UpdatedDisk(a: Artifact, sv: Services, target: string, retain: int, pre: Disk): Disk {
    var d, from := Fetched(pre, target, a), TextOf(pre.current);
    if FetchError(a, target, pre).Some? then GaveUp(a, target, pre)
    else if !sv.stopped then d
    else if sv.Works() then Releases.Pruned(d, retain)
    else if from != "" then FellBack(d, from)
    else d
  }

  /**
   * Everything an update that passed its gates does, exit by exit, if settings, history and pointer
   * writes succeed; directory steps may fail.
   */
  ghost predicate UpdateOutcome(target: string, a: Artifact, sv: Services, retain: int, pre: Disk, post: Disk,
                                last: Option<string>, last': Option<string>, rows: seq<Record>, rows': seq<Record>,
                                err: Option<CoreError>)
  {
    var d, from := Fetched(pre, target, a), TextOf(pre.current);
    if err.Some? && (err == FetchError(a, target, pre) || UnpackFails(a, target, pre, err.value)) then
      && Releases.Aside(post, target) == Releases.Aside(pre, target) && rows' == rows && last' == last
      && (target in Releases.Named(pre) ==> post == pre)
    else
      && FetchError(a, target, pre).None? && err == UpdateError(a, sv, target, pre)
      && rows' == rows + (if sv.stopped then [ActivationRow(target, from, sv)] else [])
      && last' == (if sv.stopped then StartedLast(sv, target, from, d.releases.Keys, last) else last)
      && if sv.stopped && sv.Works() then Releases.Thinned(d, post, retain)
         else post == if sv.stopped && from != "" then FellBack(d, from) else d
  }

  /** Which fault an update reports when the file system works, and when it succeeds. */
  lemma UpdateErrorExactly(a: Artifact, sv: Services, target: string, pre: Disk)
    ensures var e, d := UpdateError(a, sv, target, pre), a.delivery;
            var live := pre.current == Some(target) || pre.previous == Some(target);
            var sound := d.fetched && d.tempCreated && d.copied;
            var staged := sound && d.verified && !live && d.reopened;
            var fit := sv.started && sv.probe.Some? && sv.probe.value.available && sv.probe.value.processRunning
                       && sv.probe.value.networkConnected && sv.probe.value.blockHeightProgressing;
            && (e == Some(Because(DownloadFailed)) <==> !sound)
            && (e == Some(Because(VerifyFailed)) <==> sound && !d.verified)
            && (e == Some(Because(StageFailed)) <==> sound && d.verified && (live || !d.reopened))
            && (e == Some(Because(ExtractFailed)) <==> staged && !d.complete)
            && (e == Some(Because(StopFailed)) <==> staged && d.complete && !sv.stopped)
            && (e == Some(ValidationFailed) <==> staged && d.complete && sv.stopped && !fit)
            && (e == None <==> staged && d.complete && sv.stopped && fit)
  {
  }

  lemma FetchErrorKinds(a: Artifact, target: string, pre: Disk, e: CoreError)
    requires FetchError(a, target, pre) == Some(e) || UnpackFails(a, target, pre, e)
    ensures e.Because? && !e.cause.StopFailed?
  {
  }

  lemma FetchedLands(pre: Disk, target: string, from: string, a: Artifact)
    requires FetchError(a, target, pre).None? && pre.current == Some(from) && from in pre.releases
    ensures target != from && Landed(Fetched(pre, target, a), target, from)
    ensures Releases.DirOf(Fetched(pre, target, a), from) == Releases.DirOf(pre, from)
    ensures var d := Fetched(pre, target, a);
            target in d.releases && "qrxd" in d.releases[target] && d.releases[target]["qrxd"] == a.binary
  {
    Manager.UnpackedExactly(pre, target, a.Files());
    assert a.Files()[0] == ("qrxd", a.binary);
    ActivationLands(pre, target, from, a.Files());
  }

  lemma LandedReads(d: Disk, target: string, from: string)
    requires Landed(d, target, from)
    ensures d.current == Some(target) && from in d.releases && (target == from || d.previous == Some(from))
  {
  }

  /** Giving up on a target keeps both pointers and every other release. */
  lemma AsideKeeps(pre: Disk, post: Disk, from: string, target: string)
    requires Releases.Aside(post, target) == Releases.Aside(pre, target)
    requires target in Releases.Named(pre) ==> post == pre
    requires pre.current == Some(from)
    ensures post.current == pre.current && post.previous == pre.previous
    ensures Releases.DirOf(post, from) == Releases.DirOf(pre, from)
  {
    var e, f := Releases.Aside(post, target), Releases.Aside(pre, target);
    assert e.current == f.current && e.previous == f.previous;
    assert from != target ==> Releases.DirOf(post, from) == Releases.DirOf(e, from) == Releases.DirOf(f, from);
  }

  /**
   * The fallback guarantee of an update from an installed version: failed validation ends on it, its
   * directory untouched and started last; success ends on (target, old version) and can be switched
   * back; a failed stop leaves the target current; anything earlier leaves both pointers alone.
   */
  lemma UpdateFallsBack(target: string, a: Artifact, sv: Services, retain: int, pre: Disk, post: Disk, from: string,
                        last: Option<string>, last': Option<string>, rows: seq<Record>, rows': seq<Record>,
                        err: Option<CoreError>)
    requires UpdateOutcome(target, a, sv, retain, pre, post, last, last', rows, rows', err)
    requires pre.current == Some(from) && from != "" && from in pre.releases
    ensures FallsBack(pre, post, from, target, sv, last', err)
  {
    hide FetchError, UnpackFails, Fetched, Landed, FellBack, Releases.Thinned, Releases.Pruned, Releases.Aside;
    var d := Fetched(pre, target, a);
    if err.Some? && (err == FetchError(a, target, pre) || UnpackFails(a, target, pre, err.value)) {
      FetchErrorKinds(a, target, pre, err.value);
      AsideKeeps(pre, post, from, target);
    } else {
      FetchedLands(pre, target, from, a);
      Releases.PrunedIsThinned(d, retain);
      LandedReads(d, target, from);
      if sv.stopped && sv.Works() {
        FallbackAndSwitchBack(d, target, from, retain, post);
      } else {
        FallbackAndSwitchBack(d, target, from, retain, Releases.Pruned(d, retain));
      }
    }
  }

  predicate FallsBack(pre: Disk, post: Disk, from: string, target: string, sv: Services, last: Option<string>,
                      err: Option<CoreError>)
  {
    && Releases.DirOf(post, from) == Releases.DirOf(pre, from)
    && match err
       case None =>
         post.current == Some(target) && post.previous == Some(from) && last == Some(target)
         && Landed(SwitchedTo(post, from), from, from)
       case Some(ValidationFailed) =>
         post.current == Some(from) && post.previous == Some(target) && (sv.CanFallBack() ==> last == Some(from))
       case Some(Because(StopFailed)) =>
         post.current == Some(target) && post.previous == Some(from)
       case Some(_) =>
         post.current == Some(from) && post.previous == pre.previous
  }
}
