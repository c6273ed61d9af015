// agent/guardian/guardian.go: health classification and the sliding-window restart budget.
module Guardian {
  import opened Prelude

  datatype HealthState = Healthy | Degraded | Unhealthy | Offline

  function Severity(h: HealthState): nat {
    match h case Healthy => 0 case Degraded => 1 case Unhealthy => 2 case Offline => 3
  }

  /** Times and durations are nanosecond counts; `lastPoll` is None for the zero time. */
  datatype Signals = Signals(processRunning: bool, nodeOnline: bool, adapterHealthy: bool, lastPoll: Option<int>)

  datatype Config = Config(
    degradedAfter: int, unhealthyAfter: int, offlineAfter: int,
    maxAutoRestarts: int, restartWindow: int, minRestartInterval: int)

  function Staleness(s: Signals, cfg: Config, now: int): int {
    if s.lastPoll.Some? then now - s.lastPoll.value else cfg.offlineAfter
  }

  function Classify(s: Signals, cfg: Config, now: int): HealthState {
    if !s.processRunning then Offline
    else
      var since := Staleness(s, cfg, now);
      if since >= cfg.offlineAfter || !s.nodeOnline then Offline
      else if since >= cfg.unhealthyAfter || !s.adapterHealthy then Unhealthy
      else if since >= cfg.degradedAfter then Degraded
      else Healthy
  }

  /** The signals give a reason to call the node h. */
  predicate Justifies(s: Signals, cfg: Config, now: int, h: HealthState) {
    var since := Staleness(s, cfg, now);
    match h
    case Healthy => true
    case Degraded => since >= cfg.degradedAfter
    case Unhealthy => since >= cfg.unhealthyAfter || !s.adapterHealthy
    case Offline => since >= cfg.offlineAfter || !s.nodeOnline || !s.processRunning
  }

  /** Whatever the order of the thresholds, the verdict is the worst justified one. */
  lemma ClassifyIsWorstJustified(s: Signals, cfg: Config, now: int)
    ensures Justifies(s, cfg, now, Classify(s, cfg, now))
    ensures forall h | Justifies(s, cfg, now, h) :: Severity(h) <= Severity(Classify(s, cfg, now))
  {
  }

  /** Each verdict from outside; a node never polled successfully is offline. */
  lemma ClassifyExactly(s: Signals, cfg: Config, now: int)
    ensures var h := Classify(s, cfg, now);
            var up := s.processRunning && s.nodeOnline && s.lastPoll.Some? && now - s.lastPoll.value < cfg.offlineAfter;
            var well := up && s.adapterHealthy && now - s.lastPoll.value < cfg.unhealthyAfter;
            && (h == Offline <==> !up)
            && (h == Unhealthy <==> up && !well)
            && (h == Degraded <==> well && now - s.lastPoll.value >= cfg.degradedAfter)
            && (h == Healthy <==> well && now - s.lastPoll.value < cfg.degradedAfter)
  {
  }

  /** Waiting without a successful poll never improves the verdict. */
  lemma ClassifyOnlyWorsens(s: Signals, cfg: Config, now: int, later: int)
    requires now <= later
    ensures Severity(Classify(s, cfg, now)) <= Severity(Classify(s, cfg, later))
  {
  }

  /* ---------- The budget, on the full log of restarts ---------- */

  /** How many of the first n entries are after `cutoff`. */
  function CountAfter(log: seq<int>, n: nat, cutoff: int): (c: nat)
    requires n <= |log|
    ensures c <= n
  {
    if n == 0 then 0 else CountAfter(log, n - 1, cutoff) + if log[n - 1] > cutoff then 1 else 0
  }

  predicate Ordered(log: seq<int>) {
    forall i, j | 0 <= i <= j < |log| :: log[i] <= log[j]
  }

  /** Where an ordered log passes the cutoff. */
  lemma {:induction false} CountSplits(log: seq<int>, n: nat, cutoff: int)
    requires Ordered(log) && n <= |log|
    ensures forall i | 0 <= i < n :: log[i] > cutoff <==> i >= n - CountAfter(log, n, cutoff)
  {
    if n > 0 {
      CountSplits(log, n - 1, cutoff);
    }
  }

  lemma {:induction false} CountOfSplit(log: seq<int>, n: nat, k: nat, cutoff: int)
    requires k <= n <= |log|
    requires forall i | 0 <= i < n :: log[i] > cutoff <==> i >= k
    ensures CountAfter(log, n, cutoff) == n - k
  {
    if n > k {
      CountOfSplit(log, n - 1, k, cutoff);
    } else if n > 0 {
      CountOfSplit(log, n - 1, n - 1, cutoff);
    }
  }

  /** Any max + 1 entries in a row span at least `width`. */
  ghost predicate Spread(log: seq<int>, max: nat, width: int) {
    forall i, j | 0 <= i && i + max == j < |log| :: log[j] - log[i] >= width
  }

  /** Any two entries are at least `gap` apart. */
  predicate Apart(log: seq<int>, gap: int) {
    forall i, j | 0 <= i < j < |log| :: log[j] - log[i] >= gap
  }

  /** Any max + 1 restarts in a row span at least a window, and any two are spaced out. */
  ghost predicate WithinBudget(log: seq<int>, cfg: Config) {
    && Ordered(log)
    && (cfg.maxAutoRestarts <= 0 ==> log == [])
    && Spread(log, Max(0, cfg.maxAutoRestarts), cfg.restartWindow)
    && Apart(log, cfg.minRestartInterval)
  }

  /**
   * How many of the first n restarts lie in the half-open interval (lo, lo + width]; in whole
   * nanoseconds that is also [lo + 1, lo + width + 1), so intervals closed at the left are covered.
   */
  function CountWithin(log: seq<int>, n: nat, lo: int, width: int): nat
    requires n <= |log|
  {
    if n == 0 then 0
    else CountWithin(log, n - 1, lo, width) + if lo < log[n - 1] <= lo + width then 1 else 0
  }

  lemma {:induction false} WithinIsAfter(log: seq<int>, n: nat, lo: int, width: int)
    requires Ordered(log) && n <= |log| && (n > 0 ==> log[n - 1] <= lo + width)
    ensures CountWithin(log, n, lo, width) == CountAfter(log, n, lo)
  {
    if n > 0 {
      WithinIsAfter(log, n - 1, lo, width);
    }
  }

  /** No half-open interval of window length holds more than max restarts. */
  lemma {:induction false} BudgetHoldsInEveryWindow(log: seq<int>, n: nat, cfg: Config, lo: int)
    requires WithinBudget(log, cfg) && cfg.restartWindow > 0 && n <= |log|
    ensures CountWithin(log, n, lo, cfg.restartWindow) <= Max(0, cfg.maxAutoRestarts)
  {
    if n > 0 {
      if log[n - 1] > lo + cfg.restartWindow {
        BudgetHoldsInEveryWindow(log, n - 1, cfg, lo);
      } else {
        WithinIsAfter(log, n, lo, cfg.restartWindow);
        CountSplits(log, n, lo);
        var max := Max(0, cfg.maxAutoRestarts);
        assert max < n ==> log[n - 1] - log[n - 1 - max] >= cfg.restartWindow;
      }
    }
  }

  /** How many entries are after `cutoff`. */
  function InWindow(log: seq<int>, cutoff: int): nat {
    CountAfter(log, |log|, cutoff)
  }

  /** The budget check, made on the whole log. */
  predicate MayRestart(log: seq<int>, cfg: Config, now: int) {
    && (log == [] || now - log[|log| - 1] >= cfg.minRestartInterval)
    && InWindow(log, now - cfg.restartWindow) < cfg.maxAutoRestarts
  }

  /** The restarts in the half-open interval (lo, hi]. */
  function Inside(log: seq<int>, lo: int, hi: int): set<int> {
    set i | 0 <= i < |log| && lo < log[i] <= hi
  }

  lemma InsideGrows(log: seq<int>, t: int, lo: int, hi: int)
    ensures |Inside(log + [t], lo, hi)| == |Inside(log, lo, hi)| + if lo < t <= hi then 1 else 0
  {
    var next := log + [t];
    assert Inside(next, lo, hi) == Inside(log, lo, hi) + if lo < t <= hi then {|log|} else {};
  }

  lemma {:induction false} WithinIsInside(log: seq<int>, n: nat, lo: int, width: int)
    requires n <= |log|
    ensures CountWithin(log, n, lo, width) == |Inside(log[..n], lo, lo + width)|
  {
    if n > 0 {
      WithinIsInside(log, n - 1, lo, width);
      InsideGrows(log[..n - 1], log[n - 1], lo, lo + width);
      assert log[..n] == log[..n - 1] + [log[n - 1]];
    } else {
      assert Inside(log[..0], lo, lo + width) == {};
    }
  }

  lemma EveryWindowHolds(log: seq<int>, cfg: Config)
    requires WithinBudget(log, cfg)
    ensures cfg.restartWindow > 0 ==>
              forall lo, hi | hi == lo + cfg.restartWindow :: |Inside(log, lo, hi)| <= Max(0, cfg.maxAutoRestarts)
  {
    forall lo, hi | cfg.restartWindow > 0 && hi == lo + cfg.restartWindow
      ensures |Inside(log, lo, hi)| <= Max(0, cfg.maxAutoRestarts)
    {
      BudgetHoldsInEveryWindow(log, |log|, cfg, lo);
      WithinIsInside(log, |log|, lo, cfg.restartWindow);
      assert log[..|log|] == log;
    }
  }

  /**
   * A restart is allowed exactly if none came less than the minimal interval before it and fewer than
   * the maximum lie in the window that ends with it.
   */
  lemma MayRestartExactly(log: seq<int>, cfg: Config, now: int)
    requires Ordered(log) && (log == [] || log[|log| - 1] <= now)
    ensures MayRestart(log, cfg, now) <==>
              && (forall i | 0 <= i < |log| :: now - log[i] >= cfg.minRestartInterval)
              && |Inside(log, now - cfg.restartWindow, now)| < cfg.maxAutoRestarts
  {
    var lo := now - cfg.restartWindow;
    WithinIsInside(log, |log|, lo, cfg.restartWindow);
    assert log[..|log|] == log;
    WithinIsAfter(log, |log|, lo, cfg.restartWindow);
    assert forall i | 0 <= i < |log| :: log[i] <= log[|log| - 1];
  }

  /** A log grown one restart at a time, each allowed when it was made. */
  ghost predicate Legal(log: seq<int>, cfg: Config) {
    log == [] ||
    var before, now := log[..|log| - 1], log[|log| - 1];
    Legal(before, cfg) && (before == [] || before[|before| - 1] <= now) && MayRestart(before, cfg, now)
  }

  /** Restarts that were each allowed stay within the budget together. */
  lemma {:induction false} LegalIsWithinBudget(log: seq<int>, cfg: Config)
    requires Legal(log, cfg)
    ensures WithinBudget(log, cfg)
  {
    if log != [] {
      var before, now := log[..|log| - 1], log[|log| - 1];
      LegalIsWithinBudget(before, cfg);
      RestartStaysWithinBudget(before, cfg, now);
      assert log == before + [now];
    }
  }

  ghost predicate Allowed(log: seq<int>, cfg: Config) {
    Legal(log, cfg)
  }

  lemma LegalGrows(log: seq<int>, cfg: Config, now: int)
    requires Allowed(log, cfg) && (log == [] || log[|log| - 1] <= now) && MayRestart(log, cfg, now)
    ensures Allowed(log + [now], cfg)
  {
  }

  lemma SpreadGrows(log: seq<int>, now: int, max: nat, width: int)
    requires Ordered(log) && Spread(log, max, width) && CountAfter(log, |log|, now - width) < max
    ensures Spread(log + [now], max, width)
  {
    CountSplits(log, |log|, now - width);
    var next := log + [now];
    forall i, j | 0 <= i && i + max == j < |next| ensures next[j] - next[i] >= width {
      if j == |log| {
        assert log[i] <= now - width;
      }
    }
  }

  lemma ApartGrows(log: seq<int>, now: int, gap: int)
    requires Ordered(log) && Apart(log, gap) && (log == [] || now - log[|log| - 1] >= gap)
    ensures Apart(log + [now], gap)
  {
    var next := log + [now];
    forall i, j | 0 <= i < j < |next| ensures next[j] - next[i] >= gap {
      assert j == |log| ==> log[i] <= log[|log| - 1];
    }
  }

  lemma RestartStaysWithinBudget(log: seq<int>, cfg: Config, now: int)
    requires WithinBudget(log, cfg) && (log == [] || log[|log| - 1] <= now)
    requires MayRestart(log, cfg, now)
    ensures WithinBudget(log + [now], cfg)
  {
    hide Spread, Apart;
    SpreadGrows(log, now, cfg.maxAutoRestarts, cfg.restartWindow);
    ApartGrows(log, now, cfg.minRestartInterval);
  }

  lemma LegalIsOrdered(log: seq<int>, cfg: Config)
    requires Allowed(log, cfg)
    ensures Ordered(log)
  {
    LegalIsWithinBudget(log, cfg);
  }

  /** The first k entries are not after the cutoff. */
  predicate Past(log: seq<int>, k: nat, cutoff: int)
    requires k <= |log|
  {
    forall i | 0 <= i < k :: log[i] <= cutoff
  }

  /** The entries of s after the cutoff, in order. */
  function After(s: seq<int>, cutoff: int): seq<int> {
    if s == [] then []
    else
      var front, t := s[..|s| - 1], s[|s| - 1];
      After(front, cutoff) + if t > cutoff then [t] else []
  }

  lemma {:induction false} AfterNone(s: seq<int>, cutoff: int)
    requires forall i | 0 <= i < |s| :: s[i] <= cutoff
    ensures After(s, cutoff) == []
  {
    if s != [] {
      AfterNone(s[..|s| - 1], cutoff);
    }
  }

  lemma AfterOne(s: seq<int>, t: int, cutoff: int)
    ensures After(s + [t], cutoff) == After(s, cutoff) + if t > cutoff then [t] else []
  {
    assert (s + [t])[..|s|] == s;
  }

  lemma LastApart(s: seq<int>, t: seq<int>)
    requires t != []
    ensures s + t == s + t[..|t| - 1] + [t[|t| - 1]]
  {
  }

  /** Entries that are all after the cutoff are all kept, after whatever comes before them. */
  lemma {:induction false} AfterAll(s: seq<int>, t: seq<int>, cutoff: int)
    requires forall i | 0 <= i < |t| :: t[i] > cutoff
    ensures After(s + t, cutoff) == After(s, cutoff) + t
  {
    if t == [] {
      assert s + t == s;
    } else {
      var front, last := t[..|t| - 1], t[|t| - 1];
      AfterAll(s, front, cutoff);
      AfterOne(s + front, last, cutoff);
      LastApart(s, t);
      LastApart(After(s, cutoff), t);
    }
  }

  /** Where the first b entries are not after the cutoff and the others are, exactly the others stay. */
  lemma AfterTail(log: seq<int>, k: nat, b: nat, cutoff: int)
    requires k <= b <= |log| && Past(log, b, cutoff)
    requires forall i | b <= i < |log| :: log[i] > cutoff
    ensures After(log[k..], cutoff) == log[b..]
  {
    assert log[k..] == log[k..b] + log[b..];
    AfterNone(log[k..b], cutoff);
    AfterAll(log[k..b], log[b..], cutoff);
  }

  /**
   * Pruning what is kept of the log leaves as many as the whole log has in the window, again the
   * log's tail, and everything dropped is past the cutoff.
   */
  lemma PrunedTail(log: seq<int>, k: nat, cutoff: int)
    requires Ordered(log) && k <= |log| && Past(log, k, cutoff)
    ensures var m := |After(log[k..], cutoff)|;
            && InWindow(log, cutoff) == m <= |log|
            && After(log[k..], cutoff) == log[|log| - m..] && Past(log, |log| - m, cutoff)
  {
    CountSplits(log, |log|, cutoff);
    var c := InWindow(log, cutoff);
    assert k > 0 ==> log[k - 1] <= cutoff;
    AfterTail(log, k, |log| - c, cutoff);
  }

  /* ---------- The code ---------- */

  /** Compacts a[..n] in place to its entries after `cutoff`. */
  method Compact(a: array<int>, n: nat, cutoff: int) returns (m: nat)
    requires n <= a.Length
    modifies a
    ensures m <= n && a[..m] == After(old(a[..n]), cutoff)
  {
    ghost var was := a[..n];
    m := 0;
    for i := 0 to n
      invariant m <= i && a[..m] == After(was[..i], cutoff) && a[i..n] == was[i..]
    {
      var t := a[i];
      assert t == a[i..n][0] == was[i];
      assert was[..i + 1][..i] == was[..i];
      ghost var rest := a[i..n];
      if t > cutoff {
        a[m] := t;
        m := m + 1;
      }
      assert a[i + 1..n] == rest[1..];
    }
    assert was[..n] == was;
  }

  class Guardian {
    const cfg: Config
    var state: HealthState
    /** restartTimes is restartTimes[..count]; the array is its backing store. */
    var restartTimes: array<int>
    var count: nat
    var lastRestart: Option<int>
    /** Every restart ever made, how many of them were pruned, and the latest clock reading. */
    ghost var log: seq<int>
    ghost var dropped: nat
    ghost var clock: int

    /** The kept times are the log's tail, and what was pruned is out of every later window. */
    ghost predicate Kept()
      reads this, restartTimes
    {
      && dropped + count == |log| && count <= restartTimes.Length
      && restartTimes[..count] == log[dropped..]
      && Past(log, dropped, clock - cfg.restartWindow)
    }

    ghost predicate Valid()
      reads this, restartTimes
    {
      && Allowed(log, cfg)
      && (log != [] ==> log[|log| - 1] <= clock)
      && lastRestart == (if log == [] then None else Some(log[|log| - 1]))
      && Kept()
    }

    constructor (cfg: Config)
      ensures Valid() && this.cfg == cfg && state == Offline && log == [] && fresh(restartTimes)
    {
      this.cfg := cfg;
      state := Offline;
      restartTimes := new int[0];
      count := 0;
      lastRestart := None;
      log, dropped, clock := [], 0, 0;
    }

    method Append(t: int)
      requires count <= restartTimes.Length
      modifies this`restartTimes, this`count, restartTimes
      ensures restartTimes == old(restartTimes) || fresh(restartTimes)
      ensures count == old(count) + 1 <= restartTimes.Length && restartTimes[count - 1] == t
      ensures forall i | 0 <= i < old(count) :: restartTimes[i] == old(restartTimes[i])
    {
      if count == restartTimes.Length {
        var bigger := new int[2 * count + 1];
        for i := 0 to count
          invariant restartTimes == old(restartTimes) && count == old(count)
          invariant forall k | 0 <= k < count :: restartTimes[k] == old(restartTimes[k])
          invariant forall k | 0 <= k < i :: bigger[k] == restartTimes[k]
        {
          bigger[i] := restartTimes[i];
        }
        restartTimes := bigger;
      }
      restartTimes[count] := t;
      count := count + 1;
    }

    ghost method Advance(now: int)
      requires Valid() && clock <= now
      modifies this`clock
      ensures Valid() && clock == now
    {
      clock := now;
    }

    /** Drops the times out of the window; what is left is what the full log has in it. */
    method PruneTimes(now: int)
      requires Valid() && clock == now
      modifies this`count, this`dropped, restartTimes
      ensures Valid()
      ensures count == InWindow(log, now - cfg.restartWindow)
    {
      hide Allowed, InWindow, Past, Ordered, After;
      var cutoff := now - cfg.restartWindow;
      LegalIsOrdered(log, cfg);
      PrunedTail(log, dropped, cutoff);
      var m := Compact(restartTimes, count, cutoff);
      dropped := |log| - m;
      count := m;
    }

    /** Appends the new restart to the kept times and to the log. */
    method Record(now: int)
      requires Valid() && clock == now && MayRestart(log, cfg, now)
      modifies this`restartTimes, this`count, this`lastRestart, this`log, restartTimes
      ensures Valid() && log == old(log) + [now]
      ensures restartTimes == old(restartTimes) || fresh(restartTimes)
    {
      hide Allowed, MayRestart;
      LegalGrows(log, cfg, now);
      ghost var kept := restartTimes[..count];
      Append(now);
      assert restartTimes[..count] == kept + [now];
      assert (log + [now])[dropped..] == log[dropped..] + [now];
      lastRestart := Some(now);
      log := log + [now];
    }

    /** Restarts exactly when the full log allows it, although only a pruned list is kept. */
    method AttemptRestart(now: int) returns (restarted: bool)
      requires Valid() && clock <= now
      modifies this, restartTimes
      ensures Valid() && clock == now && state == old(state)
      ensures restartTimes == old(restartTimes) || fresh(restartTimes)
      ensures restarted <==> MayRestart(old(log), cfg, now)
      ensures restarted <==>
                && (forall i | 0 <= i < |old(log)| :: now - old(log)[i] >= cfg.minRestartInterval)
                && |Inside(old(log), now - cfg.restartWindow, now)| < cfg.maxAutoRestarts
      ensures log == if restarted then old(log) + [now] else old(log)
    {
      hide Allowed, InWindow, Past, Inside;
      LegalIsOrdered(log, cfg);
      MayRestartExactly(log, cfg, now);
      Advance(now);
      if lastRestart.Some? && now - lastRestart.value < cfg.minRestartInterval {
        return false;
      }
      PruneTimes(now);
      if count >= cfg.maxAutoRestarts {
        return false;
      }
      Record(now);
      return true;
    }

    /** One tick; the two clock readings bracket the state change. */
    method Evaluate(s: Signals, now: int, later: int) returns (newState: HealthState, restarted: bool)
      requires Valid() && clock <= now <= later
      modifies this, restartTimes
      ensures Valid() && clock == later
      ensures restartTimes == old(restartTimes) || fresh(restartTimes)
      ensures newState == state == Classify(s, cfg, now)
      ensures restarted <==> newState != old(state) && (newState.Unhealthy? || newState.Offline?)
                             && MayRestart(old(log), cfg, later)
      ensures log == if restarted then old(log) + [later] else old(log)
    {
      hide Allowed, Past, Inside, InWindow, MayRestart, Classify;
      newState := Classify(s, cfg, now);
      var changed := state != newState;
      state := newState;
      Advance(later);
      restarted := false;
      if changed && (newState.Unhealthy? || newState.Offline?) {
        restarted := AttemptRestart(later);
      }
    }
  }

  /** Any run of ticks on a clock that never goes back keeps every window within budget. */
  method Ticks(g: Guardian, signals: seq<Signals>, clock: seq<int>)
    requires g.Valid() && |clock| == 2 * |signals|
    requires forall i | 0 <= i < |clock| :: g.clock <= clock[i]
    requires forall i, j | 0 <= i <= j < |clock| :: clock[i] <= clock[j]
    modifies g, g.restartTimes
    ensures g.Valid() && old(g.log) <= g.log
    ensures g.cfg.restartWindow > 0 ==>
              forall lo, hi | hi == lo + g.cfg.restartWindow :: |Inside(g.log, lo, hi)| <= Max(0, g.cfg.maxAutoRestarts)
    ensures forall i, j | 0 <= i < j < |g.log| :: g.log[j] - g.log[i] >= g.cfg.minRestartInterval
  {
    for n := 0 to |signals|
      invariant g.Valid() && old(g.log) <= g.log
      invariant g.restartTimes == old(g.restartTimes) || fresh(g.restartTimes)
      invariant forall i | 2 * n <= i < |clock| :: g.clock <= clock[i]
    {
      var _, _ := g.Evaluate(signals[n], clock[2 * n], clock[2 * n + 1]);
    }
    LegalIsWithinBudget(g.log, g.cfg);
    EveryWindowHolds(g.log, g.cfg);
  }
}
