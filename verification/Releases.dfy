// agent/updates/store: the staged, rollback-capable release store of one component.
//
// A disk holds the release directories and the three pointers. Every pointer swap,
// directory creation, file write and directory removal is one step, and a store keeps the
// trail of all states its disk went through: a crash leaves the disk in one of them.
module Releases {
  import opened Prelude
  import Lex

  /** A release directory: file name to contents. */
  type Files = map<string, string>

  /** `bare` records the versions BootstrapCurrent registered without a directory. */
  datatype Disk = Disk(
    releases: map<string, Files>,
    current: Option<string>,
    previous: Option<string>,
    staged: Option<string>,
    bare: set<string>)

  datatype Error = AlreadyActive | AlreadyPrevious | NothingStaged | NotInstalled | NoPrevious | Io

  /* ---------- What must survive a crash ---------- */

  function Named(d: Disk): set<string> {
    Held(d.current) + Held(d.previous)
  }

  function DirOf(d: Disk, v: string): Option<Files> {
    if v in d.releases then Some(d.releases[v]) else None
  }

  /** What `current` and `previous` name is on disk, unless it was never unpacked at all. */
  ghost predicate Intact(d: Disk) {
    && (forall v | v in Named(d) :: v in d.releases || v in d.bare)
    && d.bare !! d.releases.Keys
    && (d.previous.Some? ==> d.current.Some?)
  }

  /** The step from d to e leaves alone every directory that `current` or `previous` names in d. */
  ghost predicate Shields(d: Disk, e: Disk) {
    forall v | v in Named(d) :: DirOf(e, v) == DirOf(d, v)
  }

  ghost predicate SafeTrail(t: seq<Disk>) {
    && (forall i | 0 <= i < |t| :: Intact(t[i]))
    && (forall i | 0 < i < |t| :: Shields(t[i - 1], t[i]))
  }

  /** The step from d to e deletes the staged release although a pointer names it. */
  ghost predicate Destroys(d: Disk, e: Disk) {
    d.staged.Some? && d.staged.value in Named(d) && d.staged.value in d.releases && e == Wiped(d, d.staged.value)
  }

  /** Safe all along or, once wrecked, up to the step into state `wreck`, which deleted a live release. */
  ghost predicate Traced(t: seq<Disk>, wreck: Option<nat>) {
    match wreck
    case None => SafeTrail(t)
    case Some(k) => 0 < k < |t| && SafeTrail(t[..k]) && Destroys(t[k - 1], t[k])
  }

  /** A wreck is one: no trail that reaches it is safe. */
  lemma WreckIsUnsafe(t: seq<Disk>, k: nat)
    requires Traced(t, Some(k))
    ensures !Shields(t[k - 1], t[k]) && !SafeTrail(t) && SafeTrail(t[..k])
  {
    var v := t[k - 1].staged.value;
    assert DirOf(t[k], v) != DirOf(t[k - 1], v);
    assert !Shields(t[k - 1], t[k]);
  }

  lemma WreckIsPast(t: seq<Disk>, wreck: Option<nat>)
    requires Traced(t, wreck)
    ensures wreck.Some? ==> 0 < wreck.value < |t|
  {
  }

  lemma TracedGrows(before: seq<Disk>, after: seq<Disk>, wreck: Option<nat>)
    requires wreck.Some? && Traced(before, wreck) && before <= after
    ensures Traced(after, wreck)
  {
    assert after[..wreck.value] == before[..wreck.value];
  }

  /** Over any stretch of a safe trail, a directory does not change while a pointer names it. */
  lemma {:induction false} UnchangedWhileNamed(t: seq<Disk>, i: nat, j: nat, v: string)
    requires SafeTrail(t) && i <= j < |t|
    requires forall k | i <= k < j :: v in Named(t[k])
    ensures DirOf(t[j], v) == DirOf(t[i], v)
    decreases j - i
  {
    if i < j {
      UnchangedWhileNamed(t, i, j - 1, v);
      assert Shields(t[j - 1], t[j]);
    }
  }

  /** Whatever a pointer names is there, and does not change while one does. */
  ghost predicate KeepsNamed(t: seq<Disk>) {
    && (forall i, v | 0 <= i < |t| && v in Named(t[i]) :: v in t[i].releases || v in t[i].bare)
    && (forall i, j, v | 0 <= i <= j < |t| && (forall k | i <= k < j :: v in Named(t[k])) ::
          DirOf(t[j], v) == DirOf(t[i], v))
  }

  lemma SafeTrailKeepsNamed(t: seq<Disk>)
    requires SafeTrail(t)
    ensures KeepsNamed(t)
  {
    forall i, j, v | 0 <= i <= j < |t| && (forall k | i <= k < j :: v in Named(t[k]))
      ensures DirOf(t[j], v) == DirOf(t[i], v)
    {
      UnchangedWhileNamed(t, i, j, v);
    }
  }

  lemma WreckLosesNamed(t: seq<Disk>, k: nat)
    requires Traced(t, Some(k))
    ensures !KeepsNamed(t)
  {
    var v := t[k - 1].staged.value;
    assert v in Named(t[k - 1]) && DirOf(t[k], v) != DirOf(t[k - 1], v);
  }

  /** A traced trail keeps what is named exactly if it has no wreck, and else does up to the wreck. */
  lemma TracedKeepsNamed(t: seq<Disk>, wreck: Option<nat>)
    requires Traced(t, wreck)
    ensures KeepsNamed(t) <==> wreck.None?
    ensures wreck.Some? ==>
              0 < wreck.value < |t| && KeepsNamed(t[..wreck.value]) && Destroys(t[wreck.value - 1], t[wreck.value])
  {
    hide KeepsNamed, SafeTrail, Destroys;
    match wreck {
      case None => SafeTrailKeepsNamed(t);
      case Some(k) =>
        SafeTrailKeepsNamed(t[..k]);
        WreckLosesNamed(t, k);
    }
  }

  /** Cutting a safe trail (a crash) and going on from there with another keeps it safe. */
  lemma ResumeAfterCrash(t: seq<Disk>, cut: nat, rest: seq<Disk>)
    requires SafeTrail(t) && cut < |t|
    requires SafeTrail([t[cut]] + rest)
    ensures SafeTrail(t[..cut + 1] + rest)
  {
    var all := t[..cut + 1] + rest;
    var tail := [t[cut]] + rest;
    forall i | 0 <= i < |all| ensures Intact(all[i]) && (i > 0 ==> Shields(all[i - 1], all[i])) {
      if i > cut {
        assert all[i] == tail[i - cut] && all[i - 1] == tail[i - cut - 1];
      }
    }
  }

  /* ---------- The paths each operation takes, one disk state per step ---------- */

  function Made(d: Disk, v: string): Disk {
    if v in d.releases then d else d.(releases := d.releases[v := map[]], bare := d.bare - {v})
  }

  function Without(d: Disk, gone: set<string>): Disk {
    d.(releases := d.releases - gone)
  }

  function Wiped(d: Disk, v: string): Disk {
    Without(d, {v})
  }

  function WithFile(d: Disk, v: string, name: string, data: string): Disk
    requires v in d.releases
  {
    d.(releases := d.releases[v := d.releases[v][name := data]])
  }

  /** A directory's files after writing `files` over them in order. */
  function Overlay(dir: Files, files: seq<(string, string)>): Files {
    if files == [] then dir
    else
      var last := files[|files| - 1];
      Overlay(dir, files[..|files| - 1])[last.0 := last.1]
  }

  /** Of each name the last file written counts. */
  lemma {:induction false} OverlayWrites(dir: Files, files: seq<(string, string)>, i: nat)
    requires i < |files| && forall j | i < j < |files| :: files[j].0 != files[i].0
    ensures files[i].0 in Overlay(dir, files) && Overlay(dir, files)[files[i].0] == files[i].1
  {
    if i < |files| - 1 {
      OverlayWrites(dir, files[..|files| - 1], i);
    }
  }

  /** Every other file of the directory stays, and there are no more. */
  lemma {:induction false} OverlayKeeps(dir: Files, files: seq<(string, string)>, name: string)
    requires forall i | 0 <= i < |files| :: files[i].0 != name
    ensures name in Overlay(dir, files) <==> name in dir
    ensures name in dir ==> Overlay(dir, files)[name] == dir[name]
  {
    if files != [] {
      OverlayKeeps(dir, files[..|files| - 1], name);
    }
  }

  function StagePath(d: Disk, v: string): seq<Disk> {
    [Made(d, v), Made(d, v).(staged := Some(v))]
  }

  function DiscardPath(d: Disk, removeFiles: bool): seq<Disk> {
    if d.staged.None? then []
    else
      var e := Wiped(d, d.staged.value);
      if removeFiles then [e, e.(staged := None)] else [d.(staged := None)]
  }

  /** `previous` is written before `current`. */
  function SwapPath(d: Disk, v: string): seq<Disk> {
    if d.current.Some? then
      [d.(previous := d.current), d.(previous := d.current, current := Some(v))]
    else
      [d.(current := Some(v))]
  }

  function Swapped(d: Disk, v: string): Disk {
    d.(previous := if d.current.Some? then d.current else d.previous, current := Some(v))
  }

  function PromotePath(d: Disk): seq<Disk>
    requires d.staged.Some?
  {
    SwapPath(d, d.staged.value) + [Swapped(d, d.staged.value).(staged := None)]
  }

  function RollbackPath(d: Disk): seq<Disk>
    requires d.previous.Some?
  {
    [d.(current := d.previous)]
    + (if d.current.Some? then [d.(current := d.previous, previous := d.current)] else [])
  }

  function RolledBack(d: Disk): Disk
    requires d.previous.Some?
  {
    d.(current := d.previous, previous := if d.current.Some? then d.current else d.previous)
  }

  /* ---------- The order of the steps, which decides what a crash leaves ---------- */

  /** `staged` never names a directory that is not there yet; nothing else is touched. */
  lemma StageOrder(d: Disk, v: string)
    ensures forall e | e in StagePath(d, v) ::
              && v in e.releases && (v in d.releases ==> e.releases[v] == d.releases[v])
              && (v !in d.releases ==> e.releases[v] == map[])
              && e.current == d.current && e.previous == d.previous
              && forall u | u != v ::
                   (u in e.releases <==> u in d.releases) && (u in d.releases ==> e.releases[u] == d.releases[u])
    ensures StagePath(d, v)[0].staged == d.staged && StagePath(d, v)[1].staged == Some(v)
  {
  }

  /** The directory goes before the pointer, so no crash forgets a directory that is still there. */
  lemma DiscardOrder(d: Disk)
    requires d.staged.Some?
    ensures forall e | e in DiscardPath(d, true) ::
              && d.staged.value !in e.releases && e.current == d.current && e.previous == d.previous
              && forall u | u != d.staged.value ::
                   (u in e.releases <==> u in d.releases) && (u in d.releases ==> e.releases[u] == d.releases[u])
    ensures |DiscardPath(d, true)| == 2
    ensures DiscardPath(d, true)[0].staged == d.staged && DiscardPath(d, true)[1].staged.None?
    ensures DiscardPath(d, false) == [d.(staged := None)]
  {
  }

  /** `current` only moves once `previous` names the way back, and `staged` goes last. */
  lemma PromoteOrder(d: Disk)
    requires d.staged.Some?
    ensures forall e | e in PromotePath(d) ::
              && e.releases == d.releases && (e.current == d.current || e.current == d.staged)
              && (e.current != d.current && d.current.Some? ==> e.previous == d.current)
              && (d.current.None? ==> e.previous == d.previous)
              && (e.staged.None? ==> e.current == d.staged) && (e.staged == d.staged || e.staged.None?)
    ensures var e := PromotePath(d)[|PromotePath(d)| - 1];
            e.current == d.staged && e.staged.None? && (d.current.Some? ==> e.previous == d.current)
  {
  }

  /** From its first step on a rollback has the previous version active. */
  lemma RollbackOrder(d: Disk)
    requires d.previous.Some?
    ensures forall e | e in RollbackPath(d) ::
              e.current == d.previous && e.releases == d.releases && e.staged == d.staged
              && (e.previous == d.previous || e.previous == d.current)
    ensures var e := RollbackPath(d)[|RollbackPath(d)| - 1];
            e.previous == if d.current.Some? then d.current else d.previous
  {
  }

  /** `after` is `before` with the first steps of `path`; all of them exactly when ok. */
  ghost predicate Performed(before: seq<Disk>, after: seq<Disk>, path: seq<Disk>, ok: bool) {
    && |before| <= |after| <= |before| + |path|
    && after == before + path[..|after| - |before|]
    && (ok <==> |after| == |before| + |path|)
  }

  lemma PerformedIsSafe(before: seq<Disk>, after: seq<Disk>, path: seq<Disk>, ok: bool)
    requires before != [] && SafeTrail(before) && SafeTrail([before[|before| - 1]] + path)
    requires Performed(before, after, path, ok)
    ensures SafeTrail(after)
  {
    var n := |before|;
    ResumeAfterCrash(before, n - 1, path);
    assert before[..n] == before;
    var whole := before + path;
    assert forall i | 0 <= i < |after| :: after[i] == whole[i];
  }

  lemma PerformedIsTraced(before: seq<Disk>, after: seq<Disk>, path: seq<Disk>, ok: bool, wreck: Option<nat>)
    requires before != [] && Traced(before, wreck) && Performed(before, after, path, ok)
    requires wreck.None? ==> SafeTrail([before[|before| - 1]] + path)
    ensures Traced(after, wreck)
  {
    if wreck.None? {
      PerformedIsSafe(before, after, path, ok);
    } else {
      TracedGrows(before, after, wreck);
    }
  }

  /** Two paths one after the other, the second only if the first went through. */
  lemma PerformedInTurn(before: seq<Disk>, mid: seq<Disk>, after: seq<Disk>, p: seq<Disk>, q: seq<Disk>,
                        ok1: bool, ok2: bool)
    requires Performed(before, mid, p, ok1)
    requires ok1 ==> Performed(mid, after, q, ok2)
    requires !ok1 ==> after == mid && q != []
    ensures Performed(before, after, p + q, ok1 && ok2)
  {
  }

  /* ---------- Which paths are safe ---------- */

  /** Staging is safe for exactly the versions Stage accepts, or directories already there. */
  lemma StagePathIsSafe(d: Disk, v: string)
    requires Intact(d)
    ensures SafeTrail([d] + StagePath(d, v)) <==> v !in Named(d) || v in d.releases
  {
    var path := [d] + StagePath(d, v);
    assert path[0] == d && path[1] == Made(d, v) && path[2] == Made(d, v).(staged := Some(v));
    if v in Named(d) && v !in d.releases {
      assert DirOf(path[1], v) != DirOf(d, v);
      assert !Shields(path[0], path[1]);
    }
  }

  lemma StageTrailIsTraced(before: seq<Disk>, after: seq<Disk>, v: string, ok: bool, wreck: Option<nat>)
    requires before != [] && Traced(before, wreck) && v !in Named(before[|before| - 1])
    requires Performed(before, after, StagePath(before[|before| - 1], v), ok)
    ensures Traced(after, wreck)
  {
    var d := before[|before| - 1];
    if wreck.None? {
      StagePathIsSafe(d, v);
    }
    PerformedIsTraced(before, after, StagePath(d, v), ok, wreck);
  }

  /** However far staging gets, only the target's own directory and `staged` have changed. */
  lemma StageTrailAside(before: seq<Disk>, after: seq<Disk>, v: string, ok: bool)
    requires before != [] && Performed(before, after, StagePath(before[|before| - 1], v), ok)
    ensures Aside(after[|after| - 1], v) == Aside(before[|before| - 1], v)
  {
    var d := before[|before| - 1];
    assert Made(d, v).releases - {v} == d.releases - {v};
    assert Made(d, v).bare - {v} == d.bare - {v};
    assert forall i | |before| <= i < |after| :: after[i] == StagePath(d, v)[i - |before|];
    assert |after| == |before| ==> after[|after| - 1] == d;
  }

  lemma FileIsSafe(d: Disk, v: string, name: string, data: string)
    requires Intact(d) && v in d.releases && v !in Named(d)
    ensures Intact(WithFile(d, v, name, data)) && Shields(d, WithFile(d, v, name, data))
  {
  }

  lemma FileTrailIsTraced(before: seq<Disk>, after: seq<Disk>, v: string, name: string, data: string, ok: bool,
                          wreck: Option<nat>)
    requires before != [] && Traced(before, wreck)
    requires v in before[|before| - 1].releases && v !in Named(before[|before| - 1])
    requires Performed(before, after, [WithFile(before[|before| - 1], v, name, data)], ok)
    ensures Traced(after, wreck)
  {
    var d := before[|before| - 1];
    if wreck.None? {
      FileIsSafe(d, v, name, data);
    }
    PerformedIsTraced(before, after, [WithFile(d, v, name, data)], ok, wreck);
  }

  /** Discarding with removal is safe exactly when it does not delete a live release. */
  lemma DiscardIsSafeIff(d: Disk)
    requires Intact(d) && d.staged.Some?
    ensures SafeTrail([d] + DiscardPath(d, true)) <==> d.staged.value !in Named(d) * d.releases.Keys
  {
    var v := d.staged.value;
    var path := [d] + DiscardPath(d, true);
    assert path[0] == d && path[1] == Wiped(d, v) && path[2] == Wiped(d, v).(staged := None);
    if v in Named(d) * d.releases.Keys {
      assert DirOf(path[1], v) != DirOf(d, v);
      assert !Shields(path[0], path[1]);
    }
  }

  lemma SwapPathIsSafe(d: Disk, v: string)
    requires Intact(d) && v in d.releases
    ensures SafeTrail([d] + SwapPath(d, v))
    ensures SwapPath(d, v)[|SwapPath(d, v)| - 1] == Swapped(d, v)
  {
  }

  lemma PromotePathIsSafe(d: Disk)
    requires Intact(d) && d.staged.Some? && d.staged.value in d.releases
    ensures SafeTrail([d] + PromotePath(d))
  {
    SwapPathIsSafe(d, d.staged.value);
  }

  lemma PromoteTrailIsTraced(before: seq<Disk>, after: seq<Disk>, ok: bool, wreck: Option<nat>)
    requires before != [] && before[|before| - 1].staged.Some? && Traced(before, wreck)
    requires before[|before| - 1].staged.value in before[|before| - 1].releases
    requires Performed(before, after, PromotePath(before[|before| - 1]), ok)
    ensures Traced(after, wreck)
  {
    var d := before[|before| - 1];
    if wreck.None? {
      PromotePathIsSafe(d);
    }
    PerformedIsTraced(before, after, PromotePath(d), ok, wreck);
  }

  /** A discard wrecks the store exactly when it gets to remove a staged release that is live. */
  function WreckOf(before: seq<Disk>, after: seq<Disk>, removeFiles: bool, wreck: Option<nat>): Option<nat>
    requires before != []
  {
    var d := before[|before| - 1];
    if wreck.None? && removeFiles && d.staged.Some? && d.staged.value in Named(d) && d.staged.value in d.releases
       && |after| > |before| then Some(|before|)
    else wreck
  }

  lemma DiscardTrailIsTraced(before: seq<Disk>, after: seq<Disk>, removeFiles: bool, ok: bool, wreck: Option<nat>)
    requires before != [] && Traced(before, wreck)
    requires Performed(before, after, DiscardPath(before[|before| - 1], removeFiles), ok)
    ensures Traced(after, WreckOf(before, after, removeFiles, wreck))
  {
    var d := before[|before| - 1];
    var path := DiscardPath(d, removeFiles);
    if WreckOf(before, after, removeFiles, wreck) != wreck {
      assert after[..|before|] == before;
      assert after[|before|] == path[0];
    } else if wreck.None? && |after| == |before| {
      assert after == before;
    } else {
      if wreck.None? && d.staged.Some? && removeFiles {
        DiscardIsSafeIff(d);
      }
      PerformedIsTraced(before, after, path, ok, wreck);
    }
  }

  lemma RollbackPathIsSafe(d: Disk)
    requires Intact(d) && d.previous.Some?
    ensures SafeTrail([d] + RollbackPath(d))
  {
    var path := [d] + RollbackPath(d);
    assert forall v | v in Named(d) :: v in d.releases || v in d.bare;
    forall i | 0 <= i < |path| ensures Intact(path[i]) {
      assert Named(path[i]) <= Named(d);
    }
  }

  lemma RollbackTrailIsTraced(before: seq<Disk>, after: seq<Disk>, ok: bool, wreck: Option<nat>)
    requires before != [] && Traced(before, wreck) && before[|before| - 1].previous.Some?
    requires Performed(before, after, RollbackPath(before[|before| - 1]), ok)
    ensures Traced(after, wreck)
  {
    var d := before[|before| - 1];
    if wreck.None? {
      RollbackPathIsSafe(d);
    }
    PerformedIsTraced(before, after, RollbackPath(d), ok, wreck);
  }

  /** Two rollbacks restore both pointers. */
  lemma RollbackTwiceIsIdentity(d: Disk)
    requires d.current.Some? && d.previous.Some?
    ensures RolledBack(RolledBack(d)) == d
    ensures RollbackPath(d)[1] == RolledBack(d)
  {
  }

  /**
   * A promotion whose very last step fails has already moved `current`. A caller that then discards
   * the staged release is safe exactly when not even the removal gets done.
   */
  lemma StuckDiscardIsSafeIff(d: Disk, after: seq<Disk>, ok: bool)
    requires Intact(d) && d.staged.Some? && d.staged.value in d.releases
    requires var e := Swapped(d, d.staged.value);
             Performed([e], after, DiscardPath(e, true), ok)
    ensures SafeTrail(after) <==> |after| == 1
    ensures |after| > 1 ==> after[1].current == d.staged && d.staged.value !in after[1].releases
  {
    var e := Swapped(d, d.staged.value);
    var path := [d] + SwapPath(d, d.staged.value);
    SwapPathIsSafe(d, d.staged.value);
    assert Intact(path[|path| - 1]) && path[|path| - 1] == e;
    if |after| > 1 {
      assert after[0] == e && after[1] == DiscardPath(e, true)[0];
      assert DirOf(after[1], d.staged.value) != DirOf(e, d.staged.value);
      assert !Shields(after[0], after[1]);
    } else {
      assert after == [e];
    }
  }

  /** A whole such trail: v is staged and promoted, `staged` cannot be unlinked, the discard removes v. */
  function StuckDiscardTrail(d: Disk, v: string): seq<Disk> {
    var b := Made(d, v).(staged := Some(v));
    [d] + StagePath(d, v) + SwapPath(b, v) + [Wiped(Swapped(b, v), v)]
  }

  lemma StuckDiscardWrecks(d: Disk, v: string)
    requires Intact(d) && v !in Named(d)
    ensures var t := StuckDiscardTrail(d, v);
            Traced(t, Some(|t| - 1)) && !KeepsNamed(t)
  {
    var b := Made(d, v).(staged := Some(v));
    var staging, swapping, t := [d] + StagePath(d, v), SwapPath(b, v), StuckDiscardTrail(d, v);
    StagePathIsSafe(d, v);
    assert staging[2] == b;
    SwapPathIsSafe(b, v);
    ResumeAfterCrash(staging, 2, swapping);
    assert t[..|t| - 1] == staging[..3] + swapping;
    assert t[|t| - 2] == Swapped(b, v);
    WreckLosesNamed(t, |t| - 1);
  }

  /** For instance, "b" over the active "a". */
  lemma StuckDiscardWitness()
    ensures var a := Disk(map["a" := map[]], Some("a"), None, None, {});
            Intact(a) && !KeepsNamed(StuckDiscardTrail(a, "b"))
  {
    StuckDiscardWrecks(Disk(map["a" := map[]], Some("a"), None, None, {}), "b");
  }

  /* ---------- Pruning ---------- */

  function Referenced(d: Disk): set<string> {
    Named(d) + Held(d.staged)
  }

  function Others(d: Disk): set<string> {
    d.releases.Keys - Referenced(d)
  }

  function Above(v: string, pool: set<string>): set<string> {
    set u | u in pool && Lex.Less(v, u)
  }

  /** How many of `pool` sort after v. */
  function Rank(v: string, pool: set<string>): nat {
    |Above(v, pool)|
  }

  /** The n lexically greatest of `pool`. */
  function Greatest(pool: set<string>, n: int): set<string> {
    set v | v in pool && Rank(v, pool) < n
  }

  /** The unreferenced releases beyond the max(0, retain) greatest of them. */
  function Doomed(d: Disk, retain: int): set<string> {
    Others(d) - Greatest(Others(d), Max(0, retain))
  }

  function Pruned(d: Disk, retain: int): Disk {
    Without(d, Doomed(d, retain))
  }

  /** What a prune that may have stopped halfway leaves: only doomed releases are gone. */
  predicate Thinned(d: Disk, e: Disk, retain: int) {
    var gone := d.releases.Keys - e.releases.Keys;
    e == Without(d, gone) && gone <= Doomed(d, retain)
  }

  /**
   * A prune keeps what a pointer names and, of the others, those with fewer than `retain` others
   * sorting after them; what it keeps it does not touch.
   */
  lemma PruneExactly(d: Disk, retain: int, v: string)
    ensures var e := Pruned(d, retain);
            var named := Held(d.current) + Held(d.previous) + Held(d.staged);
            var others := d.releases.Keys - named;
            && e.current == d.current && e.previous == d.previous && e.staged == d.staged && e.bare == d.bare
            && (v in e.releases ==> v in d.releases && e.releases[v] == d.releases[v])
            && (v in d.releases ==>
                  (v in e.releases <==> v in named || |set u | u in others && Lex.Less(v, u)| < retain))
  {
    var others := d.releases.Keys - (Held(d.current) + Held(d.previous) + Held(d.staged));
    assert others == Others(d);
    assert Above(v, others) == set u | u in others && Lex.Less(v, u);
  }

  lemma GoneIsThinned(d: Disk, gone: set<string>, retain: int)
    requires gone <= Doomed(d, retain)
    ensures Thinned(d, Without(d, gone), retain)
  {
    assert d.releases.Keys - Without(d, gone).releases.Keys == gone;
  }

  lemma PrunedIsThinned(d: Disk, retain: int)
    ensures Thinned(d, Pruned(d, retain), retain)
  {
    GoneIsThinned(d, Doomed(d, retain), retain);
  }

  /** The disk with everything about a version put aside: its directory, its record as bare, `staged`. */
  function Aside(d: Disk, v: string): Disk {
    d.(releases := d.releases - {v}, bare := d.bare - {v}, staged := None)
  }

  lemma WithoutBoth(d: Disk, a: set<string>, b: set<string>)
    ensures Without(Without(d, a), b) == Without(d, a + b)
  {
  }

  lemma ThinningIsSafe(d: Disk, gone: set<string>)
    requires Intact(d) && gone !! Referenced(d)
    ensures Intact(Without(d, gone)) && Shields(d, Without(d, gone))
  {
  }

  lemma RankGrows(v: string, w: string, pool: set<string>)
    requires Lex.Less(v, w) && w in pool
    ensures Rank(w, pool) < Rank(v, pool)
  {
    var aboveV := Above(v, pool);
    var aboveW := Above(w, pool);
    forall u | u in aboveW ensures u in aboveV {
      Lex.Transitive(v, w, u);
    }
    Lex.Irreflexive(w);
    assert w in aboveV && w !in aboveW;
    SmallerSubset(aboveW, aboveV);
  }

  lemma SmallerSubset(a: set<string>, b: set<string>)
    requires a < b
    ensures |a| < |b|
  {
    var x :| x in b && x !in a;
    SubsetSize(a, b - {x});
  }

  lemma {:induction false} SubsetSize(a: set<string>, b: set<string>)
    requires a <= b
    ensures |a| <= |b|
    decreases a
  {
    if a != {} {
      var x :| x in a;
      SubsetSize(a - {x}, b - {x});
    }
  }

  /** Keeping the n greatest does not change the rank of a kept one. */
  lemma RankAmongGreatest(v: string, pool: set<string>, n: int)
    requires v in Greatest(pool, n)
    ensures Rank(v, Greatest(pool, n)) == Rank(v, pool)
  {
    var all := Above(v, pool);
    var kept := Above(v, Greatest(pool, n));
    forall u | u in all ensures u in kept {
      RankGrows(v, u, pool);
    }
    assert all == kept;
  }

  /** Pruning twice is pruning once to the smaller bound. */
  lemma PruneTwice(d: Disk, a: nat, b: nat)
    ensures Pruned(Pruned(d, a), b) == Pruned(d, Min(a, b))
  {
    var e := Pruned(d, a);
    var pool := Others(d);
    assert Others(e) == Greatest(pool, a);
    forall v | v in pool
      ensures v in Greatest(Greatest(pool, a), b) <==> v in Greatest(pool, Min(a, b))
    {
      if v in Greatest(pool, a) {
        RankAmongGreatest(v, pool, a);
      }
    }
    assert Greatest(Greatest(pool, a), b) == Greatest(pool, Min(a, b));
    WithoutBoth(d, Doomed(d, a), Doomed(e, b));
    assert Doomed(d, a) + Doomed(e, b) == Doomed(d, Min(a, b));
  }

  /** Exactly min(retain, others) unreferenced releases survive. */
  lemma PruneKeepsCount(d: Disk, retain: int)
    ensures var named := Held(d.current) + Held(d.previous) + Held(d.staged);
            |Pruned(d, retain).releases.Keys - named| == Min(Max(0, retain), |d.releases.Keys - named|)
    ensures forall v, w | v in Others(d) && w in Others(d) && Lex.Less(v, w) && v in Pruned(d, retain).releases ::
              w in Pruned(d, retain).releases
  {
    var pool, n := Others(d), Max(0, retain);
    GreatestCount(Lex.SortedOf(pool), pool, n);
    var named := Held(d.current) + Held(d.previous) + Held(d.staged);
    assert Pruned(d, retain).releases.Keys - named == Greatest(pool, n);
    forall v, w | v in pool && w in pool && Lex.Less(v, w) && v in Pruned(d, retain).releases
      ensures w in Pruned(d, retain).releases
    {
      RankGrows(v, w, pool);
    }
  }

  /** With nothing staged, at most `retain` releases stay besides those the two pointers name. */
  lemma PruneLeavesFew(d: Disk, retain: int)
    requires d.staged.None?
    ensures var e := Pruned(d, retain);
            |e.releases.Keys - Held(e.current) - Held(e.previous)| <= Max(0, retain)
  {
    PruneKeepsPointers(d, retain);
    hide Pruned;
    PruneKeepsCount(d, retain);
    OneByOne(Pruned(d, retain).releases.Keys, Held(d.current), Held(d.previous));
    assert Held(d.staged) == {};
  }

  lemma OneByOne(keys: set<string>, a: set<string>, b: set<string>)
    ensures keys - a - b == keys - (a + b + {})
  {
  }

  lemma PruneKeepsPointers(d: Disk, retain: int)
    ensures var e := Pruned(d, retain);
            e.current == d.current && e.previous == d.previous && e.staged == d.staged
  {
  }

  lemma RankOfIndex(s: seq<string>, pool: set<string>, i: nat)
    requires Lex.Sorted(s) && Lex.Elements(s) == pool && i < |s|
    ensures Rank(s[i], pool) == |s| - 1 - i
  {
    var above := Above(s[i], pool);
    forall u | u in pool ensures u in above <==> u in Lex.Elements(s[i + 1..]) {
      Lex.InElements(u, s);
      var j :| 0 <= j < |s| && s[j] == u;
      if j <= i {
        if j < i { Lex.Asymmetric(s[j], s[i]); } else { Lex.Irreflexive(s[i]); }
        assert u !in s[i + 1..] by { NotLater(s, j, i + 1); }
      } else {
        assert s[i + 1..][j - i - 1] == u;
      }
    }
    assert forall u | u in s[i + 1..] :: u in s;
    assert above == Lex.Elements(s[i + 1..]);
    ElementsCount(s[i + 1..]);
  }

  lemma NotLater(s: seq<string>, j: nat, k: nat)
    requires Lex.Sorted(s) && j < k <= |s|
    ensures s[j] !in s[k..]
  {
    forall m | k <= m < |s| ensures s[m] != s[j] {
      Lex.Asymmetric(s[j], s[m]);
    }
  }

  lemma {:induction false} ElementsCount(s: seq<string>)
    requires Lex.Sorted(s)
    ensures |Lex.Elements(s)| == |s|
  {
    if s != [] {
      Lex.TailElements(s);
      ElementsCount(s[1..]);
      Lex.HeadInElements(s);
    }
  }

  lemma GreatestCount(s: seq<string>, pool: set<string>, n: nat)
    requires Lex.Sorted(s) && Lex.Elements(s) == pool
    ensures |Greatest(pool, n)| == Min(n, |pool|)
  {
    var k := Max(0, |s| - n);
    ElementsCount(s);
    forall v | v in pool ensures v in Greatest(pool, n) <==> v in Lex.Elements(s[k..]) {
      Lex.InElements(v, s);
      var i :| 0 <= i < |s| && s[i] == v;
      RankOfIndex(s, pool, i);
      if i < k {
        NotLater(s, i, k);
      } else {
        assert s[k..][i - k] == v;
      }
    }
    assert forall u | u in s[k..] :: u in s;
    assert Greatest(pool, n) == Lex.Elements(s[k..]);
    ElementsCount(s[k..]);
  }
}
