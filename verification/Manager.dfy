// agent/updates/manager.go and rollback.go: checking, installing and rolling back one component.
module Manager {
  import opened Prelude
  import opened Policy
  import opened Manifest
  import opened Gates
  import Releases
  import SemVer
  import Store
  import Verify

  type Disk = Releases.Disk

  /** How fetching, verifying and unpacking an artifact turns out. */
  datatype Delivery = Delivery(
    fetched: bool, tempCreated: bool, copied: bool, verified: bool, reopened: bool, complete: bool)
  {
    predicate Downloaded() {
      fetched && tempCreated && copied && verified
    }
  }

  /** How each thing outside the agent's control turns out during one install. */
  datatype Outcomes = Outcomes(
    delivery: Delivery, files: seq<(string, string)>, stopped: bool, started: bool, healthy: bool, restarted: bool)

  /** The first thing that goes wrong before the target is staged and unpacked. */
  function PrepareError(d: Delivery): Option<Error> {
    if !(d.fetched && d.tempCreated && d.copied) then Some(DownloadFailed)
    else if !d.verified then Some(VerifyFailed)
    else if !d.reopened then Some(StageFailed)
    else if !d.complete then Some(ExtractFailed)
    else None
  }

  /** The error of a file-system step that fails while staging or unpacking what was downloaded. */
  predicate FailsOnDisk(d: Delivery, e: Error) {
    d.Downloaded() && (e == StageFailed || (d.reopened && e == ExtractFailed))
  }

  function ResultOf(c: Controller, o: Outcomes): Result<bool, Error> {
    if PrepareError(o.delivery).Some? then Err(PrepareError(o.delivery).value)
    else if c.selfBinary then Ok(true)
    else if c.requiresRestart && !o.stopped then Err(StopFailed)
    else if !o.started then Err(StartFailed)
    else if !o.healthy then Err(HealthCheckFailed)
    else Ok(false)
  }

  datatype Verdict = NotDownloaded | GaveUp | AwaitingRestart | RolledBackTo | Committed

  function VerdictOf(r: Result<bool, Error>): Verdict {
    match r
    case Ok(pending) => if pending then AwaitingRestart else Committed
    case Err(e) =>
      if e.StartFailed? || e.HealthCheckFailed? then RolledBackTo
      else if e.DownloadFailed? || e.VerifyFailed? then NotDownloaded
      else GaveUp
  }

  function StatusOf(v: Verdict): UpdateStatus {
    match v
    case AwaitingRestart => Started
    case Committed => Succeeded
    case RolledBackTo => RolledBack
    case _ => Failed
  }

  function RowFor(offer: Offer, component: string, from: string, status: UpdateStatus, rollback: bool): Record {
    Record(component, from, offer.update.version, offer.channel, status, rollback,
           offer.update.sha256, offer.manifest.manifestVersion)
  }

  /** The one row that follows the "started" row of an install with result r. */
  function FinalRow(offer: Offer, component: string, from: string, r: Result<bool, Error>): Record {
    var v := VerdictOf(r);
    RowFor(offer, component, from, StatusOf(v), v.RolledBackTo?)
  }

  /** The disk once the target is staged with all its files. */
  function Prepared(pre: Disk, target: string, files: seq<(string, string)>): Disk {
    var made := Releases.Made(pre, target);
    made.(releases := made.releases[target := Releases.Overlay(made.releases[target], files)], staged := Some(target))
  }

  function Promoted(d: Disk, target: string): Disk {
    Releases.Swapped(d, target).(staged := None)
  }

  function GivenUp(d: Disk, target: string): Disk {
    Releases.Wiped(d, target).(staged := None)
  }

  function Reverted(d: Disk): Disk {
    if d.previous.Some? then Releases.RolledBack(d) else d
  }

  /** The disk an install leaves from the staged disk d when no file-system step fails. */
  function DiskAfter(v: Verdict, d: Disk, target: string, retain: int): Disk
    requires !v.NotDownloaded?
  {
    match v
    case GaveUp => GivenUp(d, target)
    case AwaitingRestart => Promoted(d, target)
    case RolledBackTo => Reverted(Promoted(d, target))
    case Committed => Releases.Pruned(Promoted(d, target), retain)
  }

  /**
   * The disks an install may leave from the staged disk d when directory steps fail but pointer
   * writes do not: giving up may leave the target's own directory behind, and a prune may stop
   * halfway.
   */
  predicate LeavesFrom(v: Verdict, d: Disk, target: string, retain: int, post: Disk)
    requires !v.NotDownloaded?
  {
    match v
    case GaveUp => Releases.Aside(post, target) == Releases.Aside(d, target)
    case Committed => Releases.Thinned(Promoted(d, target), post, retain)
    case _ => post == DiskAfter(v, d, target, retain)
  }

  predicate LeavesDisk(v: Verdict, pre: Disk, target: string, files: seq<(string, string)>, retain: int, post: Disk) {
    if v.NotDownloaded? then post == pre
    else LeavesFrom(v, Prepared(pre, target, files), target, retain, post)
  }

  function SettingsAfter(v: Verdict, s: Settings, offer: Offer, component: string, from: string, rowId: nat): Settings {
    var seen := LastManifest(offer.channel);
    var date := Text(offer.manifest.releasedAt);
    match v
    case Committed => s[seen := date]
    case AwaitingRestart =>
      var marker := Marker(PendingSelfUpdate(component, from, offer.update.version, offer.channel, rowId));
      s[Pending(component) := marker][seen := date]
    case _ => s
  }

  /** An install may set its channel's last-seen date and its component's marker, nothing else. */
  predicate OnlyBookkeeping(s: Settings, s': Settings, channel: string, releasedAt: string, component: string) {
    && (forall k | k in s && k != LastManifest(channel) && k != Pending(component) :: k in s' && s'[k] == s[k])
    && (forall k | k in s' && k != LastManifest(channel) && k != Pending(component) :: k in s)
    && (TextAt(s', LastManifest(channel)) == TextAt(s, LastManifest(channel))
        || TextAt(s', LastManifest(channel)) == Some(releasedAt))
  }

  /** Doing nothing, or recording the manifest's date, is bookkeeping. */
  lemma BookkeepingOf(s: Settings, channel: string, releasedAt: string, component: string)
    ensures OnlyBookkeeping(s, s, channel, releasedAt, component)
    ensures OnlyBookkeeping(s, s[LastManifest(channel) := Text(releasedAt)], channel, releasedAt, component)
  {
  }

  lemma MarkerIsBookkeeping(s: Settings, channel: string, releasedAt: string, component: string, marker: Setting)
    ensures OnlyBookkeeping(s, s[Pending(component) := marker], channel, releasedAt, component)
    ensures OnlyBookkeeping(s, s[Pending(component) := marker][LastManifest(channel) := Text(releasedAt)],
                            channel, releasedAt, component)
  {
  }

  /** `current` after an install: as before or the target, unless there was only a previous version. */
  predicate MayBeCurrent(pre: Disk, current: Option<string>, target: string) {
    current == pre.current || current == Some(target) || (pre.current.None? && current == pre.previous)
  }

  /** The two rows of an install: "started", then the one its result calls for. */
  predicate RowsOf(offer: Offer, component: string, from: string, rows: seq<Record>, rows': seq<Record>,
                   r: Result<bool, Error>)
  {
    rows' == rows + [RowFor(offer, component, from, Started, false)] + [FinalRow(offer, component, from, r)]
  }

  /**
   * What an install that passed the gates does, exit by exit, if settings, history and pointer
   * writes succeed; directory steps may fail.
   */
  ghost predicate InstallOutcome(offer: Offer, component: string, c: Controller, o: Outcomes, retain: int,
                                 pre: Disk, post: Disk, rows: seq<Record>, rows': seq<Record>,
                                 s: Settings, s': Settings, r: Result<bool, Error>)
  {
    var from := TextOf(pre.current);
    && RowsOf(offer, component, from, rows, rows', r)
    && (r == ResultOf(c, o) || (r.Err? && FailsOnDisk(o.delivery, r.error)))
    && s' == SettingsAfter(VerdictOf(r), s, offer, component, from, |rows'|)
    && LeavesDisk(VerdictOf(r), pre, offer.update.version, o.files, retain, post)
  }

  /** What it does exactly when directory steps succeed as well. */
  ghost predicate CleanOutcome(offer: Offer, c: Controller, o: Outcomes, retain: int, pre: Disk, post: Disk,
                               r: Result<bool, Error>)
  {
    var target := offer.update.version;
    && r == ResultOf(c, o)
    && post == if VerdictOf(r).NotDownloaded? then pre
               else DiskAfter(VerdictOf(r), Prepared(pre, target, o.files), target, retain)
  }

  /**
   * All or nothing, for a component with a current version: success means (current, previous) =
   * (target, old current), the target unpacked and the old current still on disk; any error
   * means `current` is as before. A failed first-ever install has nothing to go back to.
   */
  lemma InstallIsAllOrNothing(v: Verdict, pre: Disk, target: string, files: seq<(string, string)>, retain: int,
                              post: Disk)
    requires target !in Releases.Named(pre) && (pre.previous.Some? ==> pre.current.Some?)
    requires LeavesDisk(v, pre, target, files, retain, post)
    ensures v.AwaitingRestart? || v.Committed? ==>
              && post.current == Some(target) && post.previous == pre.current && post.staged.None?
              && target in post.releases
              && post.releases[target] == Releases.Overlay(Releases.Made(pre, target).releases[target], files)
    ensures !v.AwaitingRestart? && !v.Committed? && pre.current.Some? ==> post.current == pre.current
    ensures v.RolledBackTo? && pre.current.Some? ==> post.previous == Some(target)
    ensures v.RolledBackTo? && pre.current.None? ==> post.current == Some(target) && post.previous.None?
    ensures v.GaveUp? || v.NotDownloaded? ==> post.current == pre.current && post.previous == pre.previous
    ensures forall u | pre.current == Some(u) :: Releases.DirOf(post, u) == Releases.DirOf(pre, u)
  {
    if v.GaveUp? {
      PreparedAside(pre, target, files);
      var e, f := Releases.Aside(post, target), Releases.Aside(pre, target);
      assert e.current == post.current && e.previous == post.previous;
      assert forall u | u != target :: Releases.DirOf(e, u) == Releases.DirOf(post, u);
      assert forall u | u != target :: Releases.DirOf(f, u) == Releases.DirOf(pre, u);
    }
  }

  /**
   * An install seen from outside: refused without a trace, or two rows, the first naming the target,
   * and then (current, previous) = (target, old current) or the old current still in place.
   */
  predicate AllOrNothing(pre: Disk, post: Disk, rows: seq<Record>, rows': seq<Record>, r: Result<bool, Error>) {
    (r.Err? && post == pre && rows' == rows)
    || (&& |rows'| == |rows| + 2 && rows <= rows' && rows'[|rows|].status == Started
        && var target := rows'[|rows|].toVersion;
           if r.Ok? then
             post.current == Some(target) && post.previous == pre.current && target in post.releases
             && pre.current != Some(target)
           else post.current == pre.current)
  }

  lemma RefusalIsAllOrNothing(pre: Disk, rows: seq<Record>, e: Error)
    ensures AllOrNothing(pre, pre, rows, rows, Err(e))
  {
  }

  lemma OutcomeIsAllOrNothing(offer: Offer, component: string, c: Controller, o: Outcomes, retain: int,
                              pre: Disk, post: Disk, rows: seq<Record>, rows': seq<Record>,
                              s: Settings, s': Settings, r: Result<bool, Error>)
    requires InstallOutcome(offer, component, c, o, retain, pre, post, rows, rows', s, s', r)
    requires pre.current.Some? && offer.update.version !in Releases.Named(pre)
    ensures AllOrNothing(pre, post, rows, rows', r)
    ensures rows'[|rows|].toVersion == offer.update.version
  {
    InstallIsAllOrNothing(VerdictOf(r), pre, offer.update.version, o.files, retain, post);
  }

  /** The two rows of an install from outside: the second tells how it ended. */
  lemma RowsExactly(offer: Offer, component: string, from: string, rows: seq<Record>, rows': seq<Record>,
                    r: Result<bool, Error>)
    requires RowsOf(offer, component, from, rows, rows', r)
    ensures var target, sum, number := offer.update.version, offer.update.sha256, offer.manifest.manifestVersion;
            var back := r == Err(StartFailed) || r == Err(HealthCheckFailed);
            var status := if r == Ok(true) then Started else if r == Ok(false) then Succeeded
                          else if back then RolledBack else Failed;
            rows' == rows + [Record(component, from, target, offer.channel, Started, false, sum, number),
                             Record(component, from, target, offer.channel, status, back, sum, number)]
  {
  }

  /**
   * The settings from outside: a success records the manifest's date, and one that waits for its
   * restart leaves the marker naming its row; a failure changes nothing, and neither touches the rest.
   */
  lemma SettingsExactly(v: Verdict, s: Settings, s': Settings, offer: Offer, component: string, from: string,
                        rowId: nat, r: Result<bool, Error>)
    requires v == VerdictOf(r) && s' == SettingsAfter(v, s, offer, component, from, rowId)
    ensures if r.Ok? then TextAt(s', LastManifest(offer.channel)) == Some(offer.manifest.releasedAt) else s' == s
    ensures r == Ok(true) ==>
              PendingAt(s', component)
              == Some(PendingSelfUpdate(component, from, offer.update.version, offer.channel, rowId))
    ensures forall k | k != LastManifest(offer.channel) && (r == Ok(true) ==> k != Pending(component)) ::
              (k in s' <==> k in s) && (k in s ==> s'[k] == s[k])
  {
  }

  /** Which fault is reported, and when there is none. */
  lemma ResultExactly(c: Controller, o: Outcomes)
    ensures var r, d := ResultOf(c, o), o.delivery;
            var sound := d.fetched && d.tempCreated && d.copied;
            var unpacked := sound && d.verified && d.reopened && d.complete;
            var running := unpacked && !c.selfBinary && (c.requiresRestart ==> o.stopped);
            && (r == Err(DownloadFailed) <==> !sound)
            && (r == Err(VerifyFailed) <==> sound && !d.verified)
            && (r == Err(StageFailed) <==> sound && d.verified && !d.reopened)
            && (r == Err(ExtractFailed) <==> sound && d.verified && d.reopened && !d.complete)
            && (r == Err(StopFailed) <==> unpacked && !c.selfBinary && c.requiresRestart && !o.stopped)
            && (r == Err(StartFailed) <==> running && !o.started)
            && (r == Err(HealthCheckFailed) <==> running && o.started && !o.healthy)
            && (r == Ok(true) <==> unpacked && c.selfBinary)
            && (r == Ok(false) <==> running && o.started && o.healthy)
  {
  }

  /** What is unpacked is the artifact, each file as it was written last, over what was there. */
  lemma UnpackedExactly(pre: Disk, target: string, files: seq<(string, string)>)
    ensures var dir := Prepared(pre, target, files).releases[target];
            && (forall i | 0 <= i < |files| && (forall j | i < j < |files| :: files[j].0 != files[i].0) ::
                  files[i].0 in dir && dir[files[i].0] == files[i].1)
            && (forall name | name in dir && (forall i | 0 <= i < |files| :: files[i].0 != name) ::
                  target in pre.releases && name in pre.releases[target] && dir[name] == pre.releases[target][name])
  {
    var before := Releases.Made(pre, target).releases[target];
    var dir := Prepared(pre, target, files).releases[target];
    forall i | 0 <= i < |files| && (forall j | i < j < |files| :: files[j].0 != files[i].0)
      ensures files[i].0 in dir && dir[files[i].0] == files[i].1
    {
      Releases.OverlayWrites(before, files, i);
    }
    forall name | name in dir && (forall i | 0 <= i < |files| :: files[i].0 != name)
      ensures name in before && dir[name] == before[name]
    {
      Releases.OverlayKeeps(before, files, name);
    }
  }

  /** An install that gives up takes the target with it and leaves everything else as it was. */
  lemma GivenUpExactly(pre: Disk, target: string, files: seq<(string, string)>)
    ensures var post := GivenUp(Prepared(pre, target, files), target);
            && post.current == pre.current && post.previous == pre.previous && post.staged.None?
            && target !in post.releases
            && forall v | v != target ::
                 (v in post.releases <==> v in pre.releases)
                 && (v in pre.releases ==> post.releases[v] == pre.releases[v])
  {
  }

  /** A commit keeps at most `retain` releases besides the active one and the way back. */
  lemma CommitKeepsFew(pre: Disk, target: string, files: seq<(string, string)>, retain: int)
    ensures var post := DiskAfter(Committed, Prepared(pre, target, files), target, retain);
            |post.releases.Keys - Held(post.current) - Held(post.previous)| <= Max(0, retain)
  {
    hide Releases.Pruned, Prepared;
    Releases.PruneLeavesFew(Promoted(Prepared(pre, target, files), target), retain);
  }

  /** Two disks that agree once `target` is wiped differ in that directory only. */
  lemma Unpacked(made: Disk, full: Disk, target: string)
    requires target in made.releases && target in full.releases
    requires Releases.Wiped(made, target) == Releases.Wiped(full, target)
    ensures full == made.(releases := made.releases[target := full.releases[target]])
  {
    var wiped := Releases.Wiped(made, target);
    assert wiped == Releases.Wiped(full, target);
    assert full.current == wiped.current && full.previous == wiped.previous && full.staged == wiped.staged
           && full.bare == wiped.bare;
    assert made.current == wiped.current && made.previous == wiped.previous && made.staged == wiped.staged
           && made.bare == wiped.bare;
    forall v | v != target
      ensures v in full.releases <==> v in made.releases
      ensures v in full.releases ==> full.releases[v] == made.releases[v]
    {
      assert v in full.releases <==> v in wiped.releases;
      assert v in made.releases <==> v in wiped.releases;
    }
    assert full.releases == made.releases[target := full.releases[target]];
  }

  lemma GivenUpPrepared(pre: Disk, target: string, files: seq<(string, string)>)
    ensures Releases.Wiped(Prepared(pre, target, files), target)
            == Releases.Wiped(Releases.Made(pre, target).(staged := Some(target)), target)
  {
  }

  /** Staging, and then unpacking, touches nothing but the target. */
  lemma StagedAside(pre: Disk, target: string)
    ensures Releases.Aside(Releases.Made(pre, target).(staged := Some(target)), target) == Releases.Aside(pre, target)
  {
    assert Releases.Made(pre, target).releases - {target} == pre.releases - {target};
    assert pre.bare - {target} - {target} == pre.bare - {target};
  }

  lemma PreparedIsStaged(pre: Disk, target: string, files: seq<(string, string)>)
    ensures var d := Prepared(pre, target, files);
            && d.staged == Some(target) && target in d.releases
            && d.current == pre.current && d.previous == pre.previous
  {
  }

  lemma PreparedAside(pre: Disk, target: string, files: seq<(string, string)>)
    ensures Releases.Aside(Prepared(pre, target, files), target) == Releases.Aside(pre, target)
  {
    StagedAside(pre, target);
    GivenUpPrepared(pre, target, files);
    WipedAside(Prepared(pre, target, files), Releases.Made(pre, target).(staged := Some(target)), target);
  }

  lemma WipedAside(d: Disk, e: Disk, target: string)
    requires Releases.Wiped(d, target) == Releases.Wiped(e, target)
    ensures Releases.Aside(d, target) == Releases.Aside(e, target)
  {
    var w := Releases.Wiped(d, target);
    assert Releases.Aside(d, target) == w.(bare := w.bare - {target}, staged := None);
    assert w == Releases.Wiped(e, target);
    assert Releases.Aside(e, target) == w.(bare := w.bare - {target}, staged := None);
  }

  /** An install that gave up before the swap has one of the outcomes above. */
  lemma EarlyOutcome(offer: Offer, component: string, c: Controller, o: Outcomes, retain: int, pre: Disk, post: Disk,
                     rows: seq<Record>, rows': seq<Record>, s: Settings, e: Error)
    requires PrepareError(o.delivery) == Some(e) || FailsOnDisk(o.delivery, e)
    requires Releases.Aside(post, offer.update.version) == Releases.Aside(pre, offer.update.version)
    requires e.DownloadFailed? || e.VerifyFailed? ==> post == pre
    requires RowsOf(offer, component, TextOf(pre.current), rows, rows', Err(e))
    ensures InstallOutcome(offer, component, c, o, retain, pre, post, rows, rows', s, s, Err(e))
    ensures PrepareError(o.delivery) == Some(e)
            && post == (if o.delivery.Downloaded()
                        then GivenUp(Prepared(pre, offer.update.version, o.files), offer.update.version) else pre) ==>
              CleanOutcome(offer, c, o, retain, pre, post, Err(e))
  {
    PreparedAside(pre, offer.update.version, o.files);
  }

  /** So does one that went through the swap. */
  lemma LateOutcome(offer: Offer, component: string, c: Controller, o: Outcomes, retain: int, pre: Disk, post: Disk,
                    rows: seq<Record>, rows': seq<Record>, s: Settings, s': Settings, r: Result<bool, Error>)
    requires PrepareError(o.delivery).None? && r == ResultOf(c, o)
    requires RowsOf(offer, component, TextOf(pre.current), rows, rows', r)
    requires s' == SettingsAfter(VerdictOf(r), s, offer, component, TextOf(pre.current), |rows'|)
    requires LeavesFrom(VerdictOf(r), Prepared(pre, offer.update.version, o.files), offer.update.version, retain, post)
    ensures InstallOutcome(offer, component, c, o, retain, pre, post, rows, rows', s, s', r)
    ensures post == DiskAfter(VerdictOf(r), Prepared(pre, offer.update.version, o.files), offer.update.version,
                              retain) ==>
              CleanOutcome(offer, c, o, retain, pre, post, r)
  {
  }

  /** STAGE: the target's directory and pointer, then its files; cleans up after itself, best-effort. */
  method Unpack(target: string, files: seq<(string, string)>, reopened: bool, complete: bool, st: Store.Store)
    returns (err: Option<Error>)
    requires st.Sound()
    modifies st
    ensures st.Sound() && st.wreck == old(st.wreck) && old(st.trail) <= st.trail
    ensures st.disk.current == old(st.disk.current) && st.disk.previous == old(st.disk.previous)
    ensures st.pointerFaults >= old(st.pointerFaults) && st.directoryFaults >= old(st.directoryFaults)
    ensures target in Releases.Named(old(st.disk)) ==> err == Some(StageFailed) && st.disk == old(st.disk)
    ensures err.None? ==>
              && reopened && complete && st.disk == Prepared(old(st.disk), target, files)
              && st.pointerFaults == old(st.pointerFaults) && st.directoryFaults == old(st.directoryFaults)
    ensures err == None || err == Some(StageFailed) || (reopened && err == Some(ExtractFailed))
    ensures err.Some? ==> Releases.Aside(st.disk, target) == Releases.Aside(old(st.disk), target)
    ensures target !in Releases.Named(old(st.disk))
            && st.pointerFaults == old(st.pointerFaults) && st.directoryFaults == old(st.directoryFaults) ==>
              && err == (if !reopened then Some(StageFailed) else if !complete then Some(ExtractFailed) else None)
              && (err.Some? ==> st.disk == GivenUp(Prepared(old(st.disk), target, files), target))
  {
    hide Releases.Traced, Releases.Performed;
    StagedAside(st.disk, target);
    var staged := st.Stage(target);
    if staged.Some? {
      if target !in Releases.Named(old(st.disk)) {
        Releases.StageTrailAside(old(st.trail), st.trail, target, false);
      }
      return Some(StageFailed);
    }
    GivenUpPrepared(old(st.disk), target, files);
    if !reopened {
      var _ := st.DiscardStaged(true);
      return Some(StageFailed);
    }
    ghost var made := st.disk;
    var extracted := st.Extract(target, files, complete);
    WipedAside(made, st.disk, target);
    if !extracted {
      var _ := st.DiscardStaged(true);
      return Some(ExtractFailed);
    }
    Unpacked(made, st.disk, target);
    return None;
  }

  /**
   * INSTALL for callers that discard what they could not promote. This wrecks the store exactly when
   * it ends with `current` naming a target it has itself removed.
   */
  method PromoteOrDiscard(target: string, st: Store.Store) returns (ok: bool)
    requires st.Sound() && st.disk.staged == Some(target)
    requires target in st.disk.releases && target !in Releases.Named(st.disk)
    modifies st
    ensures st.Sound() && old(st.trail) <= st.trail
    ensures old(st.wreck).Some? ==> st.wreck == old(st.wreck)
    ensures old(st.wreck).None? ==> (st.wreck.Some? <==> st.disk.current == Some(target) && target !in st.disk.releases)
    ensures st.pointerFaults >= old(st.pointerFaults) && st.directoryFaults >= old(st.directoryFaults)
    ensures ok <==> st.pointerFaults == old(st.pointerFaults)
    ensures !ok && st.directoryFaults == old(st.directoryFaults) ==>
              target !in st.disk.releases
              && (st.pointerFaults == old(st.pointerFaults) + 1 ==> st.disk.staged.None?)
    ensures ok ==> st.disk == Promoted(old(st.disk), target) && st.wreck == old(st.wreck)
                   && st.directoryFaults == old(st.directoryFaults)
    ensures st.disk.current == old(st.disk.current) || st.disk.current == Some(target)
  {
    hide Releases.Traced, Releases.Performed;
    var promoted := st.Promote();
    if promoted.Some? {
      ghost var stopped, past := st.disk, st.trail;
      var err := st.DiscardStaged(true);
      DiscardRemoves(stopped, past, st.trail, target, err.None?);
    }
    ok := promoted.None?;
  }

  /** Once a discard has done anything at all, the staged release is gone. */
  lemma DiscardRemoves(d: Disk, before: seq<Disk>, after: seq<Disk>, target: string, ok: bool)
    requires before != [] && before[|before| - 1] == d && d.staged == Some(target) && target in d.releases
    requires Releases.Performed(before, after, Releases.DiscardPath(d, true), ok)
    ensures target !in after[|after| - 1].releases <==> |after| > |before|
  {
    assert forall i | |before| <= i < |after| :: after[i] == Releases.DiscardPath(d, true)[i - |before|];
    assert |after| == |before| ==> after[|after| - 1] == d;
  }

  class Manager {
    const setup: Setup
    const settings: SettingsStore
    const history: HistoryStore

    constructor (setup: Setup, settings: SettingsStore, history: HistoryStore)
      ensures this.setup == setup && this.settings == settings && this.history == history
    {
      this.setup := setup;
      this.settings := settings;
      this.history := history;
    }

    function RetainVersions(): (n: int)
      ensures n > 0 && (setup.retain > 0 ==> n == setup.retain) && (setup.retain <= 0 ==> n == 2)
    {
      if setup.retain <= 0 then 2 else setup.retain
    }

    /** Failed settings, history and pointer writes; failed directory steps do not count. */
    ghost function Faults(st: Store.Store): nat
      reads settings, history, st
    {
      settings.faults + history.faults + st.pointerFaults
    }

    /** Fills a CheckResult step by step; nothing is downloaded or written. */
    method Check(component: string, s: Scene) returns (r: Result<CheckResult, Error>)
      ensures r == CheckOf(setup, s, component)
    {
      hide FetchVerified, Compatible, MatrixAllows, SemVer.Compare;
      if component !in setup.controllers {
        return Err(UnknownComponent);
      }
      var channel := ChannelOrDefault(s.settings, component, DEFAULT_CHANNEL);
      var result := CheckResult(component, channel, "", "", false, false, false, None, false, false, None);
      var cur := TextOf(s.disk.current);
      result := result.(current := cur);
      result := result.(rollbackAvailable := s.disk.previous.Some?);
      result := result.(restartRequired := setup.controllers[component].requiresRestart);
      var pin := TextAt(s.settings, Pin(component));
      result := result.(pinned := pin.Some?);

      var fetched := FetchVerified(setup.instant, s.settings, s.feed, channel);
      if fetched.Err? {
        return Ok(result.(checkError := Some(fetched.error)));
      }
      var mf := fetched.value;
      if component !in mf.components {
        return Ok(result);
      }
      var update := mf.components[component];
      result := result.(latest := update.version);
      if pin.Some? && update.version != pin.value {
        result := result.(blockReason := Some(PinnedTo(pin.value)));
      }
      if cur == "" || SemVer.Compare(update.version, cur) > 0 {
        result := result.(updateAvailable := true);
      }
      if !Compatible(update, s.versions) {
        if !result.Blocked() {
          result := result.(blockReason := Some(Incompatible));
        }
      } else {
        result := result.(compatible := true);
      }
      if !MatrixAllows(setup, component, s.versions, update.version) {
        result := result.(compatible := false);
        if !result.Blocked() {
          result := result.(blockReason := Some(BlockedByMatrix));
        }
      }
      return Ok(result);
    }

    /** Download, verify and unpack; None when the target is staged with all its files. */
    method Prepare(offer: Offer, component: string, from: string, o: Outcomes, st: Store.Store)
      returns (err: Option<Error>)
      requires st.Sound() && offer.update.version !in Releases.Named(st.disk)
      modifies history, st
      ensures st.Sound() && st.wreck == old(st.wreck) && old(st.trail) <= st.trail
      ensures st.disk.current == old(st.disk.current) && st.disk.previous == old(st.disk.previous)
      ensures history.faults >= old(history.faults) && st.pointerFaults >= old(st.pointerFaults)
      ensures st.directoryFaults >= old(st.directoryFaults)
      ensures old(history.rows) <= history.rows
      ensures err.None? ==>
                && PrepareError(o.delivery).None?
                && history.rows == old(history.rows) && history.faults == old(history.faults)
                && st.disk == Prepared(old(st.disk), offer.update.version, o.files)
      ensures err.Some? ==>
                && (err == PrepareError(o.delivery) || FailsOnDisk(o.delivery, err.value))
                && Releases.Aside(st.disk, offer.update.version) == Releases.Aside(old(st.disk), offer.update.version)
                && (err.value.DownloadFailed? || err.value.VerifyFailed? ==> st.disk == old(st.disk))
                && (history.faults == old(history.faults) ==>
                      history.rows == old(history.rows) + [RowFor(offer, component, from, Failed, false)])
      ensures st.pointerFaults == old(st.pointerFaults) && st.directoryFaults == old(st.directoryFaults) ==>
                && err == PrepareError(o.delivery)
                && (err.Some? ==>
                      st.disk == if o.delivery.Downloaded()
                                 then GivenUp(Prepared(old(st.disk), offer.update.version, o.files),
                                              offer.update.version)
                                 else old(st.disk))
    {
      hide Releases.Traced, Releases.Performed;
      var failed := RowFor(offer, component, from, Failed, false);
      // DOWNLOAD
      if !o.delivery.fetched {
        var _ := history.Insert(failed);
        return Some(DownloadFailed);
      }
      if !o.delivery.tempCreated {
        var _ := history.Insert(failed);
        return Some(DownloadFailed);
      }
      if !o.delivery.copied {
        var _ := history.Insert(failed);
        return Some(DownloadFailed);
      }
      // VERIFY
      if !o.delivery.verified {
        var _ := history.Insert(failed);
        return Some(VerifyFailed);
      }
      err := Unpack(offer.update.version, o.files, o.delivery.reopened, o.delivery.complete, st);
      if err.Some? {
        var _ := history.Insert(failed);
      }
    }

    /** The gates of Install, in the order the code tries them. */
    method PassGates(component: string, opts: Options, feed: Feed, versions: Versions, windowOpen: bool, disk: Disk)
      returns (r: Result<Offer, Error>)
      ensures r == Gate(setup, Scene(settings.values, disk, feed, versions, windowOpen), component, opts)
    {
      hide FetchVerified, Compatible, MatrixAllows, Verify.NotDowngrade;
      if Locked(settings.values) && !opts.force {
        return Err(UpdatesLocked);
      }
      if !opts.manual {
        if !windowOpen {
          return Err(OutsideWindow);
        }
      }
      var channel := opts.channel;
      if channel == "" {
        channel := ChannelOrDefault(settings.values, component, DEFAULT_CHANNEL);
      }
      var fetched := FetchVerified(setup.instant, settings.values, feed, channel);
      if fetched.Err? {
        return Err(fetched.error);
      }
      var mf := fetched.value;
      if component !in mf.components {
        return Err(NoUpdateForComponent);
      }
      var update := mf.components[component];
      var pin := TextAt(settings.values, Pin(component));
      if pin.Some? && update.version != pin.value {
        return Err(PinnedTo(pin.value));
      }
      var current := TextOf(disk.current);
      if current != "" && current == update.version {
        return Err(AlreadyInstalled);
      }
      if !Verify.NotDowngrade(current, update.version, opts.allowDowngrade) {
        return Err(DowngradeBlocked);
      }
      if disk.previous == Some(update.version) {
        return Err(AlreadyPrevious);
      }
      if !Compatible(update, versions) {
        return Err(Incompatible);
      }
      if component !in setup.controllers {
        return Err(UnknownComponent);
      }
      if !MatrixAllows(setup, component, versions, update.version) {
        return Err(BlockedByMatrix);
      }
      return Ok(Offer(channel, mf, update));
    }

    /** The rest of a self-binary install: promote now, leave the health check to the next boot. */
    method PromoteForRestart(offer: Offer, component: string, from: string, st: Store.Store)
      returns (r: Result<bool, Error>)
      requires st.Sound() && st.disk.staged == Some(offer.update.version)
      requires offer.update.version in st.disk.releases && offer.update.version !in Releases.Named(st.disk)
      modifies history, settings, st
      ensures st.Sound() && old(st.trail) <= st.trail
      ensures old(st.wreck).Some? ==> st.wreck == old(st.wreck)
      ensures old(st.wreck).None? ==>
                (st.wreck.Some? <==>
                   st.disk.current == Some(offer.update.version) && offer.update.version !in st.disk.releases)
      ensures st.wreck != old(st.wreck) ==> r == Err(PromoteFailed) && st.pointerFaults > old(st.pointerFaults)
      ensures settings.faults >= old(settings.faults) && history.faults >= old(history.faults)
      ensures st.pointerFaults >= old(st.pointerFaults) && st.directoryFaults >= old(st.directoryFaults)
      ensures st.disk.current == old(st.disk.current) || st.disk.current == Some(offer.update.version)
      ensures OnlyBookkeeping(old(settings.values), settings.values, offer.channel, offer.manifest.releasedAt,
                              component)
      ensures r.Ok? ==> TextAt(settings.values, LastManifest(offer.channel)) == Some(offer.manifest.releasedAt)
      ensures old(history.rows) <= history.rows
      ensures settings.faults == old(settings.faults) && history.faults == old(history.faults) ==>
                history.rows == old(history.rows) + [FinalRow(offer, component, from, r)]
      ensures Faults(st) == old(Faults(st)) ==>
                && r == Ok(true)
                && st.disk == DiskAfter(VerdictOf(r), old(st.disk), offer.update.version, RetainVersions())
                && LeavesFrom(VerdictOf(r), old(st.disk), offer.update.version, RetainVersions(), st.disk)
                && st.directoryFaults == old(st.directoryFaults)
                && settings.values
                   == SettingsAfter(AwaitingRestart, old(settings.values), offer, component, from, |history.rows|)
    {
      hide OnlyBookkeeping, Releases.Traced, Releases.Performed;
      BookkeepingOf(settings.values, offer.channel, offer.manifest.releasedAt, component);
      var promoted := PromoteOrDiscard(offer.update.version, st);
      if !promoted {
        var _ := history.Insert(RowFor(offer, component, from, Failed, false));
        return Err(PromoteFailed);
      }
      var id := history.Insert(RowFor(offer, component, from, Started, false));
      if id.None? {
        return Err(HistoryWrite);
      }
      var pending := PendingSelfUpdate(component, from, offer.update.version, offer.channel, id.value);
      MarkerIsBookkeeping(settings.values, offer.channel, offer.manifest.releasedAt, component, Marker(pending));
      var marked := settings.Set(Pending(component), Marker(pending));
      if !marked {
        return Err(SettingsWrite);
      }
      var seen := settings.Set(LastManifest(offer.channel), Text(offer.manifest.releasedAt));
      if !seen {
        return Err(SettingsWrite);
      }
      return Ok(true);
    }

    /** Back to the previous version, best-effort; `restarted` is how starting it again turns out. */
    method RollbackAndRestart(st: Store.Store, restarted: bool) returns (ok: bool)
      requires st.Sound()
      modifies st
      ensures st.Sound() && st.wreck == old(st.wreck) && old(st.trail) <= st.trail
      ensures st.pointerFaults >= old(st.pointerFaults) && st.directoryFaults == old(st.directoryFaults)
      ensures st.disk.current == old(st.disk.current) || st.disk.current == old(st.disk.previous)
      ensures st.pointerFaults == old(st.pointerFaults) ==> st.disk == Reverted(old(st.disk))
      ensures ok ==> restarted && old(st.disk.previous).Some? && st.disk == Reverted(old(st.disk))
    {
      var err := st.RollbackToPrevious();
      ok := err.None? && restarted;
    }

    /** After the swap: start, health check, then commit or roll back; a failed prune is ignored. */
    method StartOrRevert(offer: Offer, component: string, from: string, o: Outcomes, st: Store.Store)
      returns (r: Result<bool, Error>)
      requires st.Sound()
      modifies history, settings, st
      ensures st.Sound() && st.wreck == old(st.wreck) && old(st.trail) <= st.trail
      ensures settings.faults >= old(settings.faults) && history.faults >= old(history.faults)
      ensures st.pointerFaults >= old(st.pointerFaults) && st.directoryFaults >= old(st.directoryFaults)
      ensures st.disk.current == old(st.disk.current) || st.disk.current == old(st.disk.previous)
      ensures OnlyBookkeeping(old(settings.values), settings.values, offer.channel, offer.manifest.releasedAt,
                              component)
      ensures r.Ok? ==> TextAt(settings.values, LastManifest(offer.channel)) == Some(offer.manifest.releasedAt)
      ensures old(history.rows) <= history.rows
      ensures settings.faults == old(settings.faults) && history.faults == old(history.faults) ==>
                && r == (if !o.started then Err(StartFailed)
                         else if !o.healthy then Err(HealthCheckFailed)
                         else Ok(false))
                && history.rows == old(history.rows) + [FinalRow(offer, component, from, r)]
                && settings.values
                   == SettingsAfter(VerdictOf(r), old(settings.values), offer, component, from, |history.rows|)
      ensures st.pointerFaults == old(st.pointerFaults) ==>
                if !o.started || !o.healthy then st.disk == Reverted(old(st.disk))
                else Releases.Thinned(old(st.disk), st.disk, RetainVersions())
      ensures st.pointerFaults == old(st.pointerFaults) && st.directoryFaults == old(st.directoryFaults) ==>
                st.disk == if !o.started || !o.healthy then Reverted(old(st.disk))
                           else Releases.Pruned(old(st.disk), RetainVersions())
    {
      hide Releases.Traced, Releases.Performed;
      if !o.started {
        var _ := RollbackAndRestart(st, o.restarted);
        var _ := history.Insert(RowFor(offer, component, from, RolledBack, true));
        return Err(StartFailed);
      }
      if !o.healthy {
        var _ := RollbackAndRestart(st, o.restarted);
        var _ := history.Insert(RowFor(offer, component, from, RolledBack, true));
        return Err(HealthCheckFailed);
      }
      // COMMIT
      var _ := st.Prune(RetainVersions());
      var seen := settings.Set(LastManifest(offer.channel), Text(offer.manifest.releasedAt));
      if !seen {
        return Err(SettingsWrite);
      }
      var id := history.Insert(RowFor(offer, component, from, Succeeded, false));
      if id.None? {
        return Err(HistoryWrite);
      }
      return Ok(false);
    }

    /** The rest of a synchronous install: stop, promote, then start and judge. It never wrecks the store. */
    method ActivateNow(offer: Offer, component: string, from: string, c: Controller, o: Outcomes, st: Store.Store)
      returns (r: Result<bool, Error>)
      requires st.Sound() && st.disk.staged == Some(offer.update.version)
      requires offer.update.version in st.disk.releases && offer.update.version !in Releases.Named(st.disk)
      requires !c.selfBinary && PrepareError(o.delivery).None?
      modifies history, settings, st
      ensures st.Sound() && st.wreck == old(st.wreck) && old(st.trail) <= st.trail
      ensures settings.faults >= old(settings.faults) && history.faults >= old(history.faults)
      ensures st.pointerFaults >= old(st.pointerFaults) && st.directoryFaults >= old(st.directoryFaults)
      ensures MayBeCurrent(old(st.disk), st.disk.current, offer.update.version)
      ensures OnlyBookkeeping(old(settings.values), settings.values, offer.channel, offer.manifest.releasedAt,
                              component)
      ensures r.Ok? ==> TextAt(settings.values, LastManifest(offer.channel)) == Some(offer.manifest.releasedAt)
      ensures old(history.rows) <= history.rows
      ensures settings.faults == old(settings.faults) && history.faults == old(history.faults) ==>
                history.rows == old(history.rows) + [FinalRow(offer, component, from, r)]
      ensures Faults(st) == old(Faults(st)) ==>
                && r == ResultOf(c, o)
                && settings.values
                   == SettingsAfter(VerdictOf(r), old(settings.values), offer, component, from, |history.rows|)
                && !VerdictOf(r).NotDownloaded?
                && LeavesFrom(VerdictOf(r), old(st.disk), offer.update.version, RetainVersions(), st.disk)
      ensures Faults(st) == old(Faults(st)) && st.directoryFaults == old(st.directoryFaults) ==>
                && st.disk == DiskAfter(VerdictOf(r), old(st.disk), offer.update.version, RetainVersions())
    {
      hide Releases.Traced, Releases.Performed;
      if c.requiresRestart {
        if !o.stopped {
          var _ := st.DiscardStaged(true);
          var _ := history.Insert(RowFor(offer, component, from, Failed, false));
          return Err(StopFailed);
        }
      }
      var promoted := st.Promote();
      if promoted.Some? {
        var _ := history.Insert(RowFor(offer, component, from, Failed, false));
        return Err(PromoteFailed);
      }
      r := StartOrRevert(offer, component, from, o, st);
    }

    /** What follows unpacking: a self-binary waits for its restart, everything else is activated now. */
    method Activate(offer: Offer, component: string, from: string, c: Controller, o: Outcomes, st: Store.Store)
      returns (r: Result<bool, Error>)
      requires st.Sound() && st.disk.staged == Some(offer.update.version)
      requires offer.update.version in st.disk.releases && offer.update.version !in Releases.Named(st.disk)
      requires PrepareError(o.delivery).None?
      modifies history, settings, st
      ensures st.Sound() && old(st.trail) <= st.trail
      ensures settings.faults >= old(settings.faults) && history.faults >= old(history.faults)
      ensures st.pointerFaults >= old(st.pointerFaults) && st.directoryFaults >= old(st.directoryFaults)
      ensures MayBeCurrent(old(st.disk), st.disk.current, offer.update.version)
      ensures OnlyBookkeeping(old(settings.values), settings.values, offer.channel, offer.manifest.releasedAt,
                              component)
      ensures r.Ok? ==> TextAt(settings.values, LastManifest(offer.channel)) == Some(offer.manifest.releasedAt)
      ensures old(history.rows) <= history.rows
      ensures settings.faults == old(settings.faults) && history.faults == old(history.faults) ==>
                history.rows == old(history.rows) + [FinalRow(offer, component, from, r)]
      ensures Faults(st) == old(Faults(st)) ==>
                && r == ResultOf(c, o) && !VerdictOf(r).NotDownloaded?
                && settings.values
                   == SettingsAfter(VerdictOf(r), old(settings.values), offer, component, from, |history.rows|)
                && LeavesFrom(VerdictOf(r), old(st.disk), offer.update.version, RetainVersions(), st.disk)
                && (st.directoryFaults == old(st.directoryFaults) ==>
                      st.disk == DiskAfter(VerdictOf(r), old(st.disk), offer.update.version, RetainVersions()))
                && st.wreck == old(st.wreck)
      ensures old(st.wreck).Some? ==> st.wreck == old(st.wreck)
      ensures old(st.wreck).None? && st.wreck.Some? ==>
                && c.selfBinary && r == Err(PromoteFailed)
                && st.disk.current == Some(offer.update.version) && offer.update.version !in st.disk.releases
    {
      hide LeavesFrom, SettingsAfter, OnlyBookkeeping, Releases.Traced;
      if c.selfBinary {
        r := PromoteForRestart(offer, component, from, st);
      } else {
        r := ActivateNow(offer, component, from, c, o, st);
      }
    }

    /**
     * The full workflow for one component; Ok(true) means "promoted, awaiting restart". The four
     * cases of its contract ask less and less of the file system and the database.
     */
    method Install(component: string, opts: Options, feed: Feed, versions: Versions, windowOpen: bool, o: Outcomes,
                   st: Store.Store)
      returns (r: Result<bool, Error>)
      requires st.Sound()
      modifies history, settings, st
      ensures st.Sound() && old(st.trail) <= st.trail
      ensures settings.faults >= old(settings.faults) && history.faults >= old(history.faults)
      ensures st.pointerFaults >= old(st.pointerFaults) && st.directoryFaults >= old(st.directoryFaults)
      ensures var scene := Scene(old(settings.values), old(st.disk), feed, versions, windowOpen);
              var gate := Gate(setup, scene, component, opts);
              && (gate.Err? ==>
                    && r == Err(gate.error) && st.trail == old(st.trail) && st.disk == old(st.disk)
                    && history.rows == old(history.rows) && settings.values == old(settings.values))
              && (gate.Ok? && Faults(st) == old(Faults(st)) && st.directoryFaults == old(st.directoryFaults) ==>
                    CleanOutcome(gate.value, setup.controllers[component], o, RetainVersions(), old(st.disk), st.disk,
                                 r))
              && (gate.Ok? && Faults(st) == old(Faults(st)) ==>
                    InstallOutcome(gate.value, component, setup.controllers[component], o, RetainVersions(),
                                   old(st.disk), st.disk, old(history.rows), history.rows,
                                   old(settings.values), settings.values, r))
              && (gate.Ok? && settings.faults == old(settings.faults) && history.faults == old(history.faults) ==>
                    RowsOf(gate.value, component, TextOf(old(st.disk.current)), old(history.rows), history.rows, r))
              && (r.Ok? ==>
                    gate.Ok? && TextAt(settings.values, LastManifest(gate.value.channel))
                                == Some(gate.value.manifest.releasedAt))
              && (gate.Ok? ==>
                    && MayBeCurrent(old(st.disk), st.disk.current, gate.value.update.version)
                    && OnlyBookkeeping(old(settings.values), settings.values, gate.value.channel,
                                       gate.value.manifest.releasedAt, component)
                    && var begun := old(history.rows)
                                    + [RowFor(gate.value, component, TextOf(old(st.disk.current)), Started, false)];
                       begun <= history.rows
                       || (r == Err(HistoryWrite) && st.trail == old(st.trail) && history.rows == old(history.rows)))
              && (old(st.wreck).None? && st.wreck.Some? ==>
                    && gate.Ok? && setup.controllers[component].selfBinary && r == Err(PromoteFailed)
                    && st.disk.current == Some(gate.value.update.version)
                    && gate.value.update.version !in st.disk.releases)
      ensures old(st.wreck).Some? ==> st.wreck == old(st.wreck)
      ensures Faults(st) == old(Faults(st)) ==> st.wreck == old(st.wreck)
    {
      hide Gate, FetchVerified, ResultOf, InstallOutcome, CleanOutcome, LeavesFrom, Prepared, DiskAfter;
      hide SettingsAfter, OnlyBookkeeping, Releases.Traced;
      var gate := PassGates(component, opts, feed, versions, windowOpen, st.disk);
      if gate.Err? {
        return Err(gate.error);
      }
      var offer := gate.value;
      BookkeepingOf(settings.values, offer.channel, offer.manifest.releasedAt, component);
      var c := setup.controllers[component];
      var from := TextOf(st.disk.current);
      var started := history.Insert(RowFor(offer, component, from, Started, false));
      if started.None? {
        return Err(HistoryWrite);
      }
      ghost var pre, rows, s := st.disk, old(history.rows), settings.values;
      var err := Prepare(offer, component, from, o, st);
      if err.Some? {
        if Faults(st) == old(Faults(st)) {
          EarlyOutcome(offer, component, c, o, RetainVersions(), pre, st.disk, rows, history.rows, s, err.value);
        }
        return Err(err.value);
      }
      PreparedIsStaged(pre, offer.update.version, o.files);
      r := Activate(offer, component, from, c, o, st);
      if Faults(st) == old(Faults(st)) {
        LateOutcome(offer, component, c, o, RetainVersions(), pre, st.disk, rows, history.rows, s, settings.values, r);
      }
    }

    /** An operator's rollback of a self-binary component: only the pointers, for the next restart. */
    method RollbackForRestart(component: string, cur: string, st: Store.Store) returns (r: Result<bool, Error>)
      requires st.Sound() && st.disk.previous.Some?
      modifies history, st
      ensures st.Sound() && st.wreck == old(st.wreck) && old(st.trail) <= st.trail
      ensures history.faults >= old(history.faults) && st.pointerFaults >= old(st.pointerFaults)
      ensures st.directoryFaults == old(st.directoryFaults)
      ensures Faults(st) == old(Faults(st)) ==>
                && r == Ok(true) && st.disk == Releases.RolledBack(old(st.disk))
                && history.rows == old(history.rows)
                                   + [Record(component, cur, TextOf(old(st.disk.previous)), "",
                                             RolledBack, true, "", 0)]
    {
      hide Releases.Traced, Releases.Performed;
      var err := st.RollbackToPrevious();
      if err.Some? {
        return Err(RollbackFailed);
      }
      var id := history.Insert(Record(component, cur, TextOf(st.disk.current), "", RolledBack, true, "", 0));
      return if id.None? then Err(HistoryWrite) else Ok(true);
    }

    /** Undoes a rollback of `found`, best-effort; both pointers end as found. */
    method SwapBack(st: Store.Store, ghost found: Disk)
      requires st.Sound() && found.previous.Some?
      modifies st
      ensures st.Sound() && st.wreck == old(st.wreck) && old(st.trail) <= st.trail
      ensures st.pointerFaults >= old(st.pointerFaults) && st.directoryFaults == old(st.directoryFaults)
      ensures (st.pointerFaults == old(st.pointerFaults) && found.current.Some?
               && old(st.disk) == Releases.RolledBack(found)) ==>
                st.disk == found
    {
      hide Releases.Traced, Releases.Performed;
      if found.current.Some? {
        Releases.RollbackTwiceIsIdentity(found);
      }
      var _ := st.RollbackToPrevious();
    }

    /**
     * An operator's rollback. A target that starts but fails its health check is swapped back, so
     * both pointers end as found; one that fails to start stays active.
     */
    method Rollback(component: string, stopped: bool, started: bool, healthy: bool, st: Store.Store)
      returns (r: Result<bool, Error>)
      requires st.Sound()
      modifies history, st
      ensures st.Sound() && st.wreck == old(st.wreck) && old(st.trail) <= st.trail
      ensures Faults(st) >= old(Faults(st)) && st.directoryFaults == old(st.directoryFaults)
      ensures component !in setup.controllers ==> r == Err(UnknownComponent)
      ensures component in setup.controllers && old(st.disk.previous).None? ==> r == Err(NoRollbackTarget)
      ensures component !in setup.controllers || old(st.disk.previous).None? ==>
                st.disk == old(st.disk) && history.rows == old(history.rows)
      ensures component in setup.controllers && old(st.disk.previous).Some? && Faults(st) == old(Faults(st)) ==>
                var c := setup.controllers[component];
                && (r == Ok(true) <==> c.selfBinary)
                && (r == Ok(false) <==> !c.selfBinary && (c.requiresRestart ==> stopped) && started && healthy)
                && (r.Ok? ==>
                      && st.disk == Releases.RolledBack(old(st.disk))
                      && history.rows == old(history.rows) + [Record(
                           component, TextOf(old(st.disk.current)), TextOf(old(st.disk.previous)), "",
                           if c.selfBinary then RolledBack else Succeeded, true, "", 0)])
                && (r.Err? ==>
                      && history.rows == old(history.rows)
                      && (r.error.StartFailed? ==> st.disk == Releases.RolledBack(old(st.disk)))
                      && (!r.error.StartFailed? && old(st.disk.current).Some? ==> st.disk == old(st.disk)))
                && (r == Err(StartFailed) <==> !c.selfBinary && (c.requiresRestart ==> stopped) && !started)
                && (r == Err(StopFailed) <==> !c.selfBinary && c.requiresRestart && !stopped)
                && (r == Err(HealthCheckFailed) <==>
                      !c.selfBinary && (c.requiresRestart ==> stopped) && started && !healthy)
    {
      hide Releases.Traced, Releases.Performed, Releases.RolledBack;
      if component !in setup.controllers {
        return Err(UnknownComponent);
      }
      var c := setup.controllers[component];
      var cur := TextOf(st.disk.current);
      if st.disk.previous.None? {
        return Err(NoRollbackTarget);
      }
      if c.selfBinary {
        r := RollbackForRestart(component, cur, st);
        return;
      }
      if c.requiresRestart {
        if !stopped {
          return Err(StopFailed);
        }
      }
      var err := st.RollbackToPrevious();
      if err.Some? {
        return Err(RollbackFailed);
      }
      if !started {
        return Err(StartFailed);
      }
      if !healthy {
        SwapBack(st, old(st.disk));
        return Err(HealthCheckFailed);
      }
      var id := history.Insert(Record(component, cur, TextOf(st.disk.current), "", Succeeded, true, "", 0));
      if id.None? {
        return Err(HistoryWrite);
      }
      return Ok(false);
    }
  }
}
