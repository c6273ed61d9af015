// agent/updates/bootguard.go and selfupdate.go: a self-update across process restarts.
module SelfUpdate {
  import opened Prelude
  import opened Policy
  import opened Gates
  import Decimal
  import Manager
  import Releases
  import Store

  const DEFAULT_MAX_ATTEMPTS := 3

  /* ---------- One component's state between boots ---------- */

  datatype Agent = Agent(
    current: Option<string>, previous: Option<string>, pending: Option<PendingSelfUpdate>, attempts: int)

  function AttemptsAt(s: Settings, component: string): int {
    match TextAt(s, BootAttempts(component)) case Some(t) => Decimal.AtoiOrZero(t) case None => 0
  }

  /** What is stored under a marker's key is a marker. */
  predicate MarkerWellFormed(s: Settings, component: string) {
    Pending(component) in s ==> s[Pending(component)].Marker?
  }

  function ViewOf(d: Releases.Disk, s: Settings, component: string): Agent {
    Agent(d.current, d.previous, PendingAt(s, component), AttemptsAt(s, component))
  }

  function SwapBack(a: Agent): Agent {
    a.(current := a.previous, previous := if a.current.Some? then a.current else a.previous)
  }

  /** The guard's step on a boot with a pending update, and whether it rolled back. */
  function GuardStep(a: Agent, max: int): (Agent, bool) {
    var counted := a.(attempts := a.attempts + 1);
    if counted.attempts <= max || a.previous.None? then (counted, false)
    else (SwapBack(a).(pending := None, attempts := 0), true)
  }

  /** The deferred health check: commit, or swap back when there is something to swap to. */
  function ResumeStep(a: Agent, healthy: bool): Agent {
    (if healthy || a.previous.None? then a else SwapBack(a)).(pending := None, attempts := 0)
  }

  datatype Boot = Crashes | Reaches(healthy: bool)

  /** One process start: guard first; a forced rollback exits, otherwise the boot crashes or resumes. */
  function BootStep(a: Agent, max: int, b: Boot): Agent {
    if a.pending.None? then a
    else
      var (guarded, rolledBack) := GuardStep(a, max);
      if rolledBack || b.Crashes? then guarded else ResumeStep(guarded, b.healthy)
  }

  function Boots(a: Agent, max: int, bs: seq<Boot>): Agent
    decreases bs
  {
    if bs == [] then a else Boots(BootStep(a, max, bs[0]), max, bs[1..])
  }

  /** How many boots crash before the first one that gets through. */
  function LeadingCrashes(bs: seq<Boot>): (n: nat)
    ensures n <= |bs| && (forall i | 0 <= i < n :: bs[i].Crashes?) && (n < |bs| ==> bs[n].Reaches?)
  {
    if bs == [] || bs[0].Reaches? then 0 else 1 + LeadingCrashes(bs[1..])
  }

  /** An update that recorded a previous version and has not been booted yet. */
  predicate Armed(a: Agent) {
    a.pending.Some? && a.current.Some? && a.previous.Some? && a.attempts >= 0
  }

  lemma {:induction false} SettledStaysPut(a: Agent, max: int, bs: seq<Boot>)
    requires a.pending.None?
    ensures Boots(a, max, bs) == a
  {
    if bs != [] {
      SettledStaysPut(a, max, bs[1..]);
    }
  }

  /** The full course of an update that has already crashed a.attempts times, over any boots. */
  lemma {:induction false} CourseOfBoots(a: Agent, max: int, bs: seq<Boot>)
    requires Armed(a) && a.attempts <= max
    ensures var n, left := LeadingCrashes(bs), max - a.attempts;
            Boots(a, max, bs) ==
              if n < left && n < |bs| then ResumeStep(a, bs[n].healthy)
              else if |bs| <= left then a.(attempts := a.attempts + |bs|)
              else SwapBack(a).(pending := None, attempts := 0)
    decreases bs
  {
    if bs != [] {
      var next := BootStep(a, max, bs[0]);
      if next.pending.None? {
        SettledStaysPut(next, max, bs[1..]);
      } else {
        CourseOfBoots(next, max, bs[1..]);
      }
    }
  }

  /**
   * The crash-loop bound. Fresh from an install, boots that never get through leave both pointers
   * alone for exactly `max` boots; the next one restores the previous version and forgets the
   * update, and nothing after that moves the pointers again.
   */
  lemma CrashLoopBound(a: Agent, max: int, bs: seq<Boot>)
    requires Armed(a) && a.attempts == 0 && max > 0
    requires forall b | b in bs :: b.Crashes?
    ensures |bs| <= max ==> Boots(a, max, bs) == a.(attempts := |bs|)
    ensures |bs| > max ==> Boots(a, max, bs) == Agent(a.previous, a.current, None, 0)
  {
    CourseOfBoots(a, max, bs);
    assert forall i | 0 <= i < |bs| :: bs[i] in bs;
  }

  /**
   * The first boot that gets through within the budget decides for good: the target when healthy,
   * the previous version otherwise.
   */
  lemma FirstBootThroughDecides(a: Agent, max: int, bs: seq<Boot>)
    requires Armed(a) && a.attempts == 0 && max > 0
    requires LeadingCrashes(bs) < max && LeadingCrashes(bs) < |bs|
    ensures var healthy := bs[LeadingCrashes(bs)].healthy;
            && Boots(a, max, bs).current == (if healthy then a.current else a.previous)
            && Boots(a, max, bs).previous == (if healthy then a.previous else a.current)
            && Boots(a, max, bs).pending.None? && Boots(a, max, bs).attempts == 0
  {
    CourseOfBoots(a, max, bs);
  }

  /**
   * Where an update from `from` to `target` stands after some boots: once it is decided, marker and
   * counter are gone; until then the target is in place and every boot so far is counted.
   */
  predicate Settles(from: Option<string>, target: Option<string>, max: int, bs: seq<Boot>, a: Agent) {
    var n := LeadingCrashes(bs);
    var decided := (n < max && n < |bs|) || |bs| > max;
    var keeps := if n < max && n < |bs| then bs[n].healthy else |bs| <= max;
    && (if keeps then a.current == target && a.previous == from else a.current == from && a.previous == target)
    && (if decided then a.pending.None? && a.attempts == 0 else a.pending.Some? && a.attempts == |bs|)
  }

  lemma BootsSettle(a: Agent, max: int, bs: seq<Boot>)
    requires Armed(a) && a.attempts == 0 && max > 0
    ensures Settles(a.previous, a.current, max, bs, Boots(a, max, bs))
  {
    CourseOfBoots(a, max, bs);
  }

  /** No boot ever leaves a counter behind once the marker is gone. */
  lemma {:induction false} CounterGoesWithMarker(a: Agent, max: int, bs: seq<Boot>)
    requires a.pending.None? ==> a.attempts == 0
    ensures Boots(a, max, bs).pending.None? ==> Boots(a, max, bs).attempts == 0
    decreases bs
  {
    if bs != [] {
      CounterGoesWithMarker(BootStep(a, max, bs[0]), max, bs[1..]);
    }
  }

  /** A successful self-binary install over a current version leaves exactly an armed update. */
  lemma InstallArms(offer: Offer, component: string, c: Controller, o: Manager.Outcomes, retain: int,
                    pre: Releases.Disk, post: Releases.Disk, rows: seq<Record>, rows': seq<Record>,
                    s: Settings, s': Settings, r: Result<bool, Error>)
    requires Manager.InstallOutcome(offer, component, c, o, retain, pre, post, rows, rows', s, s', r)
    requires r == Ok(true) && pre.current.Some? && AttemptsAt(s, component) == 0
    ensures MarkerWellFormed(s', component)
    ensures var a := ViewOf(post, s', component);
            && Armed(a) && a.attempts == 0
            && a.current == Some(offer.update.version) && a.previous == pre.current
            && a.pending.value.toVersion == offer.update.version
            && Some(a.pending.value.fromVersion) == pre.current
  {
  }

  /* ---------- The code ---------- */

  class BootGuard {
    const settings: SettingsStore
    const history: HistoryStore
    const maxAttempts: int

    constructor (settings: SettingsStore, history: HistoryStore, maxAttempts: int)
      ensures this.settings == settings && this.history == history && this.maxAttempts == maxAttempts
    {
      this.settings := settings;
      this.history := history;
      this.maxAttempts := maxAttempts;
    }

    function EffectiveMaxAttempts(): (n: int)
      ensures n > 0 && (maxAttempts > 0 ==> n == maxAttempts) && (maxAttempts <= 0 ==> n == 3)
    {
      if maxAttempts <= 0 then DEFAULT_MAX_ATTEMPTS else maxAttempts
    }

    /** Failed settings, history and pointer writes; failed directory steps do not count. */
    ghost function Faults(st: Store.Store): nat
      reads settings, history, st
    {
      settings.faults + history.faults + st.pointerFaults
    }

    /** Every component with a marker, once each, found by scanning the keys in any order. */
    method PendingComponents() returns (out: seq<string>)
      ensures forall c :: c in out <==> Pending(c) in settings.values
      ensures forall i, j | 0 <= i < j < |out| :: out[i] != out[j]
    {
      out := [];
      var keys := settings.values.Keys;
      while keys != {}
        invariant keys <= settings.values.Keys
        invariant forall c :: c in out <==> Pending(c) in settings.values && Pending(c) !in keys
        invariant forall i, j | 0 <= i < j < |out| :: out[i] != out[j]
        decreases keys
      {
        var k :| k in keys;
        keys := keys - {k};
        if k.Pending? {
          out := out + [k.component];
        }
      }
    }

    method RecordAttempt(component: string) returns (n: int, ok: bool)
      modifies settings
      ensures n == AttemptsAt(old(settings.values), component) + 1
      ensures BootAttempts(component) !in old(settings.values) ==> n == 1
      ensures forall k | 0 <= k <= Decimal.MAX_INT
                && TextAt(old(settings.values), BootAttempts(component)) == Some(Decimal.OfInt(k)) :: n == k + 1
      ensures settings.values ==
              if ok then old(settings.values)[BootAttempts(component) := Text(Decimal.OfInt(n))]
              else old(settings.values)
      ensures settings.faults == old(settings.faults) + if ok then 0 else 1
    {
      n := 0;
      var raw := TextAt(settings.values, BootAttempts(component));
      forall k | 0 <= k <= Decimal.MAX_INT ensures Decimal.AtoiOrZero(Decimal.OfInt(k)) == k {
        Decimal.IntRoundTrip(k);
      }
      if raw.Some? {
        n := Decimal.AtoiOrZero(raw.value);
      }
      n := n + 1;
      ok := settings.Set(BootAttempts(component), Text(Decimal.OfInt(n)));
    }

    /**
     * Counts this boot; past the budget forces the rollback and forgets the update. That the counter
     * could not be deleted goes unnoticed, and then it is all that is left behind.
     */
    method CheckAndRecordAttempt(component: string, st: Store.Store)
      returns (rolledBack: bool, attempts: int, failed: bool)
      requires st.Sound()
      modifies settings, history, st
      ensures st.Sound() && st.wreck == old(st.wreck) && old(st.trail) <= st.trail
      ensures settings.faults >= old(settings.faults) && history.faults >= old(history.faults)
      ensures st.pointerFaults >= old(st.pointerFaults) && st.directoryFaults == old(st.directoryFaults)
      ensures MarkerWellFormed(old(settings.values), component) ==> MarkerWellFormed(settings.values, component)
      ensures failed ==> settings.faults + history.faults > old(settings.faults) + old(history.faults)
      ensures !failed && st.pointerFaults == old(st.pointerFaults)
              && 0 <= AttemptsAt(old(settings.values), component) < Decimal.MAX_INT
              && PendingAt(old(settings.values), component).Some? ==>
                var before := ViewOf(old(st.disk), old(settings.values), component);
                var after := ViewOf(st.disk, settings.values, component);
                var (next, back) := GuardStep(before, EffectiveMaxAttempts());
                && rolledBack == back && attempts == before.attempts + 1
                && after == next.(attempts := after.attempts)
                && (after.attempts == next.attempts || after.attempts == attempts)
                && (settings.faults == old(settings.faults) ==> after == next)
                && st.disk.releases == old(st.disk).releases
                && history.rows == old(history.rows)
                     + (if attempts <= EffectiveMaxAttempts() then []
                        else [Record(component, before.pending.value.toVersion, before.pending.value.fromVersion,
                                     before.pending.value.channel, if rolledBack then RolledBack else Failed,
                                     true, "", 0)])
    {
      hide Decimal.AtoiOrZero, Decimal.OfInt, Releases.Traced, Releases.Performed;
      var counted;
      attempts, counted := RecordAttempt(component);
      Decimal.IntRoundTrip(attempts);
      if !counted {
        return false, attempts, true;
      }
      if attempts <= EffectiveMaxAttempts() {
        return false, attempts, false;
      }
      var pending := match PendingAt(settings.values, component)
                     case Some(p) => p
                     case None => PendingSelfUpdate("", "", "", "", 0);
      var err := st.RollbackToPrevious();
      var id := history.Insert(Record(component, pending.toVersion, pending.fromVersion, pending.channel,
                                      if err.Some? then Failed else RolledBack, true, "", 0));
      if err.Some? {
        return false, attempts, id.None?;
      }
      var deleted := settings.Delete(Pending(component));
      var _ := settings.Delete(BootAttempts(component));
      return true, attempts, id.None? || !deleted;
    }
  }

  /**
   * Runs the deferred health check on the process that is now running the new code; None when
   * nothing is pending. A rollback here only flips the pointers.
   */
  method ResumeSelfUpdate(m: Manager.Manager, component: string, healthy: bool, st: Store.Store)
    returns (r: Result<Option<Record>, Error>)
    requires st.Sound()
    modifies m.settings, m.history, st
    ensures st.Sound() && st.wreck == old(st.wreck) && old(st.trail) <= st.trail
    ensures m.settings.faults >= old(m.settings.faults) && m.history.faults >= old(m.history.faults)
    ensures st.pointerFaults >= old(st.pointerFaults) && st.directoryFaults >= old(st.directoryFaults)
    ensures MarkerWellFormed(old(m.settings.values), component) ==> MarkerWellFormed(m.settings.values, component)
    ensures PendingAt(old(m.settings.values), component).None? ==>
              r == Ok(None) && st.disk == old(st.disk) && m.settings.values == old(m.settings.values)
              && m.history.rows == old(m.history.rows)
    ensures PendingAt(old(m.settings.values), component).Some? && component !in m.setup.controllers ==>
              r == Err(UnknownComponent) && st.disk == old(st.disk) && m.history.rows == old(m.history.rows)
    ensures m.Faults(st) == old(m.Faults(st)) && component in m.setup.controllers ==> r.Ok?
    ensures r.Ok? && st.pointerFaults == old(st.pointerFaults) && PendingAt(old(m.settings.values), component).Some? ==>
              var before := ViewOf(old(st.disk), old(m.settings.values), component);
              var after := ViewOf(st.disk, m.settings.values, component);
              && after == ResumeStep(before, healthy).(attempts := after.attempts)
              && (after.attempts == 0 || after.attempts == before.attempts)
              && (m.settings.faults == old(m.settings.faults) ==> after == ResumeStep(before, healthy))
              && r.value.Some? && m.history.rows == old(m.history.rows) + [r.value.value]
              && (var marker := before.pending.value;
                  var status := if healthy then Succeeded else if before.previous.Some? then RolledBack else Failed;
                  r.value.value == Record(component, marker.fromVersion, marker.toVersion, marker.channel, status,
                                          status == RolledBack, "", 0))
              && (if healthy then Releases.Thinned(old(st.disk), st.disk, m.RetainVersions())
                  else st.disk.releases == old(st.disk).releases)
              && (healthy && st.directoryFaults == old(st.directoryFaults) ==>
                    st.disk == Releases.Pruned(old(st.disk), m.RetainVersions()))
  {
    hide Releases.Traced, Releases.Performed, Releases.Thinned, Releases.Pruned;
    var pending := PendingAt(m.settings.values, component);
    if pending.None? {
      return Ok(None);
    }
    var _ := m.settings.Delete(BootAttempts(component));
    if component !in m.setup.controllers {
      return Err(UnknownComponent);
    }
    var rec := Record(component, pending.value.fromVersion, pending.value.toVersion, pending.value.channel,
                      Succeeded, false, "", 0);
    if !healthy {
      var err := st.RollbackToPrevious();
      if err.Some? {
        rec := rec.(status := Failed);
      } else {
        rec := rec.(status := RolledBack, rollbackUsed := true);
      }
    } else {
      var _ := st.Prune(m.RetainVersions());
    }
    var id := m.history.Insert(rec);
    if id.None? {
      return Err(HistoryWrite);
    }
    var deleted := m.settings.Delete(Pending(component));
    if !deleted {
      return Err(SettingsWrite);
    }
    return Ok(Some(rec));
  }

  /**
   * One start of the agent process as far as this component is concerned: the guard before anything
   * that could crash, then, unless it exits or crashes, the deferred health check. A guard that
   * reports an error is logged and passed over, even if it did roll back.
   */
  method StartProcess(guard: BootGuard, m: Manager.Manager, component: string, boot: Boot, st: Store.Store)
    requires st.Sound() && guard.settings == m.settings && guard.history == m.history
    modifies m.settings, m.history, st
    ensures st.Sound() && st.wreck == old(st.wreck) && old(st.trail) <= st.trail
    ensures m.Faults(st) >= old(m.Faults(st))
    ensures m.Faults(st) == old(m.Faults(st)) && component in m.setup.controllers
            && 0 <= AttemptsAt(old(m.settings.values), component) < Decimal.MAX_INT
            && MarkerWellFormed(old(m.settings.values), component) ==>
              && ViewOf(st.disk, m.settings.values, component)
                 == BootStep(ViewOf(old(st.disk), old(m.settings.values), component), guard.EffectiveMaxAttempts(),
                             boot)
              && MarkerWellFormed(m.settings.values, component)
  {
    var pending := guard.PendingComponents();
    if component in pending {
      var rolledBack, attempts, failed := guard.CheckAndRecordAttempt(component, st);
      if rolledBack && !failed {
        return;
      }
    }
    if boot.Crashes? {
      return;
    }
    var _ := ResumeSelfUpdate(m, component, boot.healthy, st);
  }

  lemma {:induction false} BootsOneMore(a: Agent, max: int, bs: seq<Boot>, b: Boot)
    ensures Boots(a, max, bs + [b]) == BootStep(Boots(a, max, bs), max, b)
    decreases bs
  {
    if bs == [] {
      assert [] + [b] == [b] && [b][1..] == [];
    } else {
      BootsOneMore(BootStep(a, max, bs[0]), max, bs[1..], b);
      assert (bs + [b])[1..] == bs[1..] + [b];
    }
  }

  lemma {:induction false} CounterStaysSmall(a: Agent, max: int, bs: seq<Boot>)
    requires a.attempts >= 0
    ensures 0 <= Boots(a, max, bs).attempts <= a.attempts + |bs|
    decreases bs
  {
    if bs != [] {
      CounterStaysSmall(BootStep(a, max, bs[0]), max, bs[1..]);
    }
  }

  /** Any run of process starts without I/O faults does exactly what Boots says. */
  method BootRun(guard: BootGuard, m: Manager.Manager, component: string, bs: seq<Boot>, st: Store.Store)
    requires st.Sound() && guard.settings == m.settings && guard.history == m.history
    requires component in m.setup.controllers
    modifies m.settings, m.history, st
    ensures st.Sound() && m.Faults(st) >= old(m.Faults(st))
    ensures m.Faults(st) == old(m.Faults(st)) && MarkerWellFormed(old(m.settings.values), component)
            && 0 <= AttemptsAt(old(m.settings.values), component)
            && AttemptsAt(old(m.settings.values), component) + |bs| < Decimal.MAX_INT ==>
              ViewOf(st.disk, m.settings.values, component)
              == Boots(ViewOf(old(st.disk), old(m.settings.values), component), guard.EffectiveMaxAttempts(), bs)
  {
    ghost var a, max := ViewOf(st.disk, m.settings.values, component), guard.EffectiveMaxAttempts();
    ghost var fits :=
      MarkerWellFormed(m.settings.values, component) && 0 <= a.attempts && a.attempts + |bs| < Decimal.MAX_INT;
    for n := 0 to |bs|
      invariant st.Sound() && m.Faults(st) >= old(m.Faults(st))
      invariant fits && m.Faults(st) == old(m.Faults(st)) ==>
                  && ViewOf(st.disk, m.settings.values, component) == Boots(a, max, bs[..n])
                  && MarkerWellFormed(m.settings.values, component)
    {
      if fits {
        CounterStaysSmall(a, max, bs[..n]);
      }
      BootsOneMore(a, max, bs[..n], bs[n]);
      assert bs[..n] + [bs[n]] == bs[..n + 1];
      StartProcess(guard, m, component, bs[n], st);
    }
    assert bs[..|bs|] == bs;
  }

  /**
   * The whole self-update: a successful install over a current version, then any boots. Crashing
   * boots up to the budget leave the target in place; the first boot through it decides; one more
   * crash brings the old version back.
   */
  method UpdateThenBoot(guard: BootGuard, m: Manager.Manager, component: string, opts: Options, feed: Feed,
                        versions: Versions, windowOpen: bool, o: Manager.Outcomes, bs: seq<Boot>, st: Store.Store)
    returns (r: Result<bool, Error>)
    requires st.Sound() && guard.settings == m.settings && guard.history == m.history
    requires component in m.setup.controllers && |bs| < Decimal.MAX_INT
    requires st.disk.current.Some? && AttemptsAt(m.settings.values, component) == 0
    modifies m.settings, m.history, st
    ensures r == Ok(true) && m.Faults(st) == old(m.Faults(st)) ==>
              var scene := Scene(old(m.settings.values), old(st.disk), feed, versions, windowOpen);
              var gate := Gate(m.setup, scene, component, opts);
              gate.Ok?
              && Settles(old(st.disk.current), Some(gate.value.update.version), guard.EffectiveMaxAttempts(), bs,
                         ViewOf(st.disk, m.settings.values, component))
  {
    ghost var pre, s, rows := st.disk, m.settings.values, m.history.rows;
    r := m.Install(component, opts, feed, versions, windowOpen, o, st);
    if r != Ok(true) {
      return;
    }
    ghost var gate := Gate(m.setup, Scene(s, pre, feed, versions, windowOpen), component, opts);
    ghost var a := ViewOf(st.disk, m.settings.values, component);
    if m.Faults(st) == old(m.Faults(st)) {
      InstallArms(gate.value, component, m.setup.controllers[component], o, m.RetainVersions(), pre, st.disk,
                  rows, m.history.rows, s, m.settings.values, r);
      BootsSettle(a, guard.EffectiveMaxAttempts(), bs);
    }
    BootRun(guard, m, component, bs, st);
  }
}
