// The Store type itself: each method drives the disk through one of the paths in Releases.
module Store {
  import opened Prelude
  import opened Releases
  import Lex

  /** Pointer steps write or remove a pointer; directory steps create, fill or remove a directory. */
  datatype Kind = Pointer | Directory

  class Store {
    var disk: Disk
    /** Every state the disk has been in, oldest first; a crash can stop at any of them. */
    var trail: seq<Disk>
    /** Failed pointer writes so far, and failed directory steps: creation, file writes, removal. */
    ghost var pointerFaults: nat
    ghost var directoryFaults: nat
    /** Where in the trail a discard first deleted a release that was live, if it ever did. */
    ghost var wreck: Option<nat>

    ghost predicate Valid()
      reads this
    {
      trail != [] && trail[|trail| - 1] == disk
    }

    ghost predicate Sound()
      reads this
    {
      Valid() && Traced(trail, wreck)
    }

    constructor ()
      ensures Sound() && trail == [Disk(map[], None, None, None, {})] && wreck.None?
    {
      disk := Disk(map[], None, None, None, {});
      trail := [Disk(map[], None, None, None, {})];
      pointerFaults, directoryFaults, wreck := 0, 0, None;
    }

    /** One atomic file-system step: it happens entirely, or fails and changes nothing. */
    method Step(target: Disk, ghost kind: Kind) returns (ok: bool)
      requires Valid()
      modifies this
      ensures Valid() && Performed(old(trail), trail, [target], ok)
      ensures disk == if ok then target else old(disk)
      ensures wreck == old(wreck)
      ensures pointerFaults == old(pointerFaults) + if !ok && kind.Pointer? then 1 else 0
      ensures directoryFaults == old(directoryFaults) + if !ok && kind.Directory? then 1 else 0
    {
      ok := *;
      if ok {
        disk := target;
        trail := trail + [target];
      } else if kind.Pointer? {
        pointerFaults := pointerFaults + 1;
      } else {
        directoryFaults := directoryFaults + 1;
      }
    }

    /** The machine stops somewhere after `mark`; the disk is left as it was at that moment. */
    method Crash(mark: nat, cut: nat)
      requires Valid() && mark <= cut < |trail|
      modifies this
      ensures Valid() && trail == old(trail)[..cut + 1] && disk == old(trail)[cut]
      ensures old(Sound()) ==> Sound()
      ensures wreck == if old(wreck).Some? && old(wreck).value > cut then None else old(wreck)
    {
      if old(Sound()) && wreck.Some? {
        if wreck.value > cut {
          assert trail[..cut + 1] == trail[..wreck.value][..cut + 1];
        } else {
          assert trail[..cut + 1][..wreck.value] == trail[..wreck.value];
        }
      }
      if wreck.Some? && wreck.value > cut {
        wreck := None;
      }
      trail := trail[..cut + 1];
      disk := trail[cut];
    }

    method BootstrapCurrent(version: string) returns (err: Option<Error>)
      requires Valid()
      modifies this
      ensures Valid() && wreck == old(wreck) && directoryFaults == old(directoryFaults) && old(trail) <= trail
      ensures old(disk).current.Some? ==> err.None? && trail == old(trail)
      ensures old(disk).current.None? && err.None? ==>
                disk == old(disk).(current := Some(version),
                                   bare := old(disk).bare + ({version} - old(disk).releases.Keys))
      ensures pointerFaults >= old(pointerFaults) && (err.None? <==> pointerFaults == old(pointerFaults))
      ensures err.Some? ==> trail == old(trail)
      ensures old(Sound()) ==> Sound()
    {
      if disk.current.Some? {
        return None;
      }
      ghost var target := disk.(current := Some(version), bare := disk.bare + ({version} - disk.releases.Keys));
      var ok := Step(disk.(current := Some(version), bare := disk.bare + ({version} - disk.releases.Keys)), Pointer);
      err := if ok then None else Some(Io);
      if old(Sound()) {
        PerformedIsTraced(old(trail), trail, [target], ok, wreck);
      }
    }

    method Stage(version: string) returns (err: Option<Error>)
      requires Valid()
      modifies this
      ensures old(trail) <= trail
      ensures Valid() && wreck == old(wreck)
      ensures err == Some(AlreadyActive) <==> old(disk).current == Some(version)
      ensures err == Some(AlreadyPrevious) <==>
              old(disk).current != Some(version) && old(disk).previous == Some(version)
      ensures err.None? || err == Some(AlreadyActive) || err == Some(AlreadyPrevious) || err == Some(Io)
      ensures version in Named(old(disk)) ==> trail == old(trail)
      ensures version !in Named(old(disk)) ==>
                Performed(old(trail), trail, StagePath(old(disk), version), err.None?)
      ensures err.None? ==> disk == Made(old(disk), version).(staged := Some(version))
      ensures disk.current == old(disk).current && disk.previous == old(disk).previous
      ensures pointerFaults >= old(pointerFaults) && directoryFaults >= old(directoryFaults)
      ensures err == Some(Io) <==> pointerFaults + directoryFaults > old(pointerFaults) + old(directoryFaults)
      ensures err == Some(Io) && pointerFaults == old(pointerFaults) ==> trail == old(trail) && disk == old(disk)
      ensures old(Sound()) ==> Sound()
    {
      hide Traced;
      if disk.current == Some(version) {
        return Some(AlreadyActive);
      }
      if disk.previous == Some(version) {
        return Some(AlreadyPrevious);
      }
      ghost var path := StagePath(disk, version);
      var ok := Step(Made(disk, version), Directory);
      if ok {
        ok := Step(disk.(staged := Some(version)), Pointer);
      }
      err := if ok then None else Some(Io);
      assert Performed(old(trail), trail, path, ok);
      if old(Sound()) {
        StageTrailIsTraced(old(trail), trail, version, ok, wreck);
      }
    }

    /** Controller.Extract: writes an artifact's files into the staged directory one by one. */
    method Extract(version: string, files: seq<(string, string)>, complete: bool) returns (ok: bool)
      requires Valid() && version in disk.releases
      modifies this
      ensures Valid() && wreck == old(wreck) && pointerFaults == old(pointerFaults)
      ensures directoryFaults >= old(directoryFaults) && old(trail) <= trail
      ensures version in disk.releases && Wiped(disk, version) == Wiped(old(disk), version)
      ensures ok ==> complete && disk.releases[version] == Overlay(old(disk).releases[version], files)
      ensures ok <==> complete && directoryFaults == old(directoryFaults)
      ensures old(Sound()) && version !in Named(old(disk)) ==> Sound()
    {
      ok := complete;
      var i := 0;
      while i < |files|
        invariant 0 <= i <= |files|
        invariant Valid() && wreck == old(wreck) && pointerFaults == old(pointerFaults)
        invariant directoryFaults == old(directoryFaults) && ok == complete && old(trail) <= trail
        invariant version in disk.releases && Wiped(disk, version) == Wiped(old(disk), version)
        invariant disk.releases[version] == Overlay(old(disk).releases[version], files[..i])
        invariant old(Sound()) && version !in Named(old(disk)) ==> Sound()
      {
        ghost var before := disk;
        ghost var past := trail;
        assert before.current == Wiped(before, version).current && before.previous == Wiped(before, version).previous;
        ghost var target := WithFile(disk, version, files[i].0, files[i].1);
        var stepped := Step(WithFile(disk, version, files[i].0, files[i].1), Directory);
        assert Wiped(target, version) == Wiped(before, version);
        if old(Sound()) && version !in Named(old(disk)) {
          FileTrailIsTraced(past, trail, version, files[i].0, files[i].1, stepped, wreck);
        }
        if !stepped {
          ok := false;
          return;
        }
        assert files[..i + 1][..i] == files[..i];
        i := i + 1;
      }
      assert files[..|files|] == files;
    }

    /** Removing the staged release wrecks the store exactly when a pointer names that release. */
    method DiscardStaged(removeFiles: bool) returns (err: Option<Error>)
      requires Valid()
      modifies this
      ensures old(trail) <= trail
      ensures Valid() && wreck == WreckOf(old(trail), trail, removeFiles, old(wreck))
      ensures Performed(old(trail), trail, DiscardPath(old(disk), removeFiles), err.None?)
      ensures pointerFaults >= old(pointerFaults) && directoryFaults >= old(directoryFaults)
      ensures err.None? <==> pointerFaults == old(pointerFaults) && directoryFaults == old(directoryFaults)
      ensures err.None? && removeFiles && old(disk).staged.Some? ==>
                disk == Wiped(old(disk), old(disk).staged.value).(staged := None)
      ensures disk.current == old(disk).current && disk.previous == old(disk).previous
      ensures forall v | old(disk).staged == Some(v) :: Aside(disk, v) == Aside(old(disk), v)
      ensures removeFiles && directoryFaults == old(directoryFaults) ==> Held(old(disk).staged) !! disk.releases.Keys
      ensures err.None? ==> disk.staged.None?
      ensures old(Sound()) ==> Sound()
    {
      hide Traced;
      if disk.staged.None? {
        return None;
      }
      ghost var path := DiscardPath(disk, removeFiles);
      ghost var v := disk.staged.value;
      var ok := true;
      if removeFiles {
        assert Aside(Wiped(disk, v), v) == Aside(disk, v) by { WithoutBoth(disk, {v}, {v}); }
        ok := Step(Wiped(disk, disk.staged.value), Directory);
      }
      if ok {
        ok := Step(disk.(staged := None), Pointer);
      }
      err := if ok then None else Some(Io);
      wreck := WreckOf(old(trail), trail, removeFiles, wreck);
      assert Performed(old(trail), trail, path, ok);
      if old(Sound()) {
        DiscardTrailIsTraced(old(trail), trail, removeFiles, ok, old(wreck));
      }
    }

    /** Writes `previous`, if anything is active, and then `current`. */
    method SwapIn(version: string) returns (ok: bool)
      requires Valid()
      modifies this
      ensures old(trail) <= trail
      ensures Valid() && wreck == old(wreck) && directoryFaults == old(directoryFaults)
      ensures Performed(old(trail), trail, SwapPath(old(disk), version), ok)
      ensures ok ==> disk == Swapped(old(disk), version) && pointerFaults == old(pointerFaults)
      ensures !ok ==> pointerFaults > old(pointerFaults) && disk.current == old(disk).current
      ensures disk.previous == old(disk).previous || disk.previous == old(disk).current
      ensures disk.releases == old(disk).releases && disk.staged == old(disk).staged
    {
      ok := true;
      if disk.current.Some? {
        ok := Step(disk.(previous := disk.current), Pointer);
      }
      if ok {
        ok := Step(disk.(current := Some(version)), Pointer);
      }
    }

    /** The pointer writes of a promotion; only the last of them can fail with `current` moved. */
    method SwapInStaged(staged: string) returns (ok: bool)
      requires Valid() && disk.staged == Some(staged)
      modifies this
      ensures old(trail) <= trail
      ensures Valid() && Performed(old(trail), trail, PromotePath(old(disk)), ok)
      ensures wreck == old(wreck) && directoryFaults == old(directoryFaults)
      ensures pointerFaults >= old(pointerFaults) && (ok <==> pointerFaults == old(pointerFaults))
      ensures ok ==> disk == Swapped(old(disk), staged).(staged := None)
      ensures !ok ==> disk.staged == old(disk).staged && disk.releases == old(disk).releases
      ensures !ok ==> disk.current == old(disk).current || disk == Swapped(old(disk), staged)
      ensures disk.previous == old(disk).previous || disk.previous == old(disk).current
    {
      var swapped := SwapIn(staged);
      ghost var mid := trail;
      ok := false;
      if swapped {
        ok := Step(disk.(staged := None), Pointer);
      }
      PerformedInTurn(old(trail), mid, trail, SwapPath(old(disk), staged),
                      [Swapped(old(disk), staged).(staged := None)], swapped, ok);
    }

    method Promote() returns (err: Option<Error>)
      requires Valid()
      modifies this
      ensures old(trail) <= trail
      ensures Valid() && wreck == old(wreck) && directoryFaults == old(directoryFaults)
      ensures err == Some(NothingStaged) <==> old(disk).staged.None?
      ensures err.None? || err == Some(NothingStaged) || err == Some(Io)
      ensures old(disk).staged.None? ==> trail == old(trail)
      ensures old(disk).staged.Some? ==>
                && Performed(old(trail), trail, PromotePath(old(disk)), err.None?)
                && (err.None? ==> disk == Swapped(old(disk), old(disk).staged.value).(staged := None))
                && (err.Some? ==> disk.staged == old(disk).staged && disk.releases == old(disk).releases)
                && (err.Some? ==>
                      disk.current == old(disk).current || disk == Swapped(old(disk), old(disk).staged.value))
      ensures disk.previous == old(disk).previous || disk.previous == old(disk).current
      ensures pointerFaults >= old(pointerFaults) && (err == Some(Io) <==> pointerFaults > old(pointerFaults))
      ensures old(Sound()) && Held(old(disk).staged) <= old(disk).releases.Keys ==> Sound()
    {
      hide Traced;
      if disk.staged.None? {
        return Some(NothingStaged);
      }
      var ok := SwapInStaged(disk.staged.value);
      err := if ok then None else Some(Io);
      if old(Sound()) && old(disk).staged.value in old(disk).releases {
        PromoteTrailIsTraced(old(trail), trail, ok, wreck);
      }
    }

    method PromoteVersion(version: string) returns (err: Option<Error>)
      requires Valid()
      modifies this
      ensures old(trail) <= trail
      ensures Valid() && wreck == old(wreck) && directoryFaults == old(directoryFaults)
      ensures err == Some(NotInstalled) <==> version !in old(disk).releases
      ensures err.None? || err == Some(NotInstalled) || err == Some(Io)
      ensures err == Some(NotInstalled) || old(disk).current == Some(version) ==> trail == old(trail)
      ensures version in old(disk).releases && old(disk).current != Some(version) ==>
                && Performed(old(trail), trail, SwapPath(old(disk), version), err.None?)
                && (err.None? ==> disk == Swapped(old(disk), version))
      ensures pointerFaults >= old(pointerFaults) && (err == Some(Io) <==> pointerFaults > old(pointerFaults))
      ensures err.Some? ==> disk.current == old(disk).current
      ensures old(Sound()) ==> Sound()
    {
      if version !in disk.releases {
        return Some(NotInstalled);
      }
      if disk.current == Some(version) {
        return None;
      }
      var ok := SwapIn(version);
      err := if ok then None else Some(Io);
      if old(Sound()) {
        if wreck.None? {
          SwapPathIsSafe(old(disk), version);
        }
        PerformedIsTraced(old(trail), trail, SwapPath(old(disk), version), ok, wreck);
      }
    }

    method RollbackToPrevious() returns (err: Option<Error>)
      requires Valid()
      modifies this
      ensures old(trail) <= trail
      ensures Valid() && wreck == old(wreck) && directoryFaults == old(directoryFaults)
      ensures err == Some(NoPrevious) <==> old(disk).previous.None?
      ensures err.None? || err == Some(NoPrevious) || err == Some(Io)
      ensures old(disk).previous.None? ==> trail == old(trail)
      ensures old(disk).previous.Some? ==>
                && Performed(old(trail), trail, RollbackPath(old(disk)), err.None?)
                && (err.None? ==> disk == RolledBack(old(disk)) && disk.current == old(disk).previous)
      ensures pointerFaults >= old(pointerFaults) && (err == Some(Io) <==> pointerFaults > old(pointerFaults))
      ensures disk.current == old(disk).current || disk.current == old(disk).previous
      ensures disk.releases == old(disk).releases && disk.staged == old(disk).staged
      ensures old(Sound()) ==> Sound()
    {
      hide Traced;
      if disk.previous.None? {
        return Some(NoPrevious);
      }
      var prev, cur := disk.previous, disk.current;
      var ok := Step(disk.(current := prev), Pointer);
      if ok && cur.Some? {
        ok := Step(disk.(previous := cur), Pointer);
      }
      err := if ok then None else Some(Io);
      assert Performed(old(trail), trail, RollbackPath(old(disk)), ok);
      if old(Sound()) {
        RollbackTrailIsTraced(old(trail), trail, ok, wreck);
      }
    }

    method InstalledVersions() returns (versions: seq<string>)
      ensures versions == Lex.SortedOf(disk.releases.Keys)
    {
      versions := Lex.Sort(disk.releases.Keys);
    }

    method RemoveRelease(version: string) returns (ok: bool)
      requires Valid() && version !in Referenced(disk)
      modifies this
      ensures Valid() && wreck == old(wreck) && pointerFaults == old(pointerFaults) && old(trail) <= trail
      ensures directoryFaults == old(directoryFaults) + if ok then 0 else 1
      ensures disk == if ok then Wiped(old(disk), version) else old(disk)
      ensures old(Sound()) ==> Sound()
    {
      ghost var target := Wiped(disk, version);
      ok := Step(Wiped(disk, version), Directory);
      if old(Sound()) {
        if wreck.None? {
          ThinningIsSafe(old(disk), {version});
        }
        PerformedIsTraced(old(trail), trail, [target], ok, wreck);
      }
    }

    /** The loop of Prune: walks the sorted listing backwards, keeping the first `limit` it may remove. */
    method RemoveBeyond(versions: seq<string>, keep: set<string>, limit: nat)
      returns (err: Option<Error>, ghost i: nat)
      requires Valid() && Referenced(disk) <= keep
      modifies this
      ensures Valid() && wreck == old(wreck) && pointerFaults == old(pointerFaults) && old(trail) <= trail
      ensures err.None? <==> directoryFaults == old(directoryFaults)
      ensures directoryFaults >= old(directoryFaults)
      ensures i <= |versions| && disk == Without(old(disk), GoneFrom(versions, i, keep, limit))
      ensures err.None? ==> i == 0
      ensures old(Sound()) ==> Sound()
    {
      ghost var d := disk;
      var extra := 0;
      var j := |versions|;
      assert Without(d, {}) == d;
      while j > 0
        invariant 0 <= j <= |versions|
        invariant Valid() && wreck == old(wreck) && pointerFaults == old(pointerFaults) && old(trail) <= trail
        invariant directoryFaults == old(directoryFaults)
        invariant extra == Min(limit, CountFrom(versions, j, keep))
        invariant disk == Without(d, GoneFrom(versions, j, keep, limit))
        invariant old(Sound()) ==> Sound()
      {
        var v := versions[j - 1];
        if v !in keep {
          if extra < limit {
            extra := extra + 1;
          } else {
            ghost var gone := GoneFrom(versions, j, keep, limit);
            var ok := RemoveRelease(v);
            if !ok {
              return Some(Io), j;
            }
            WithoutBoth(d, gone, {v});
          }
        }
        j := j - 1;
      }
      return None, 0;
    }

    method Prune(retain: int) returns (err: Option<Error>)
      requires Valid()
      modifies this
      ensures Valid() && wreck == old(wreck) && pointerFaults == old(pointerFaults) && old(trail) <= trail
      ensures err.None? <==> directoryFaults == old(directoryFaults)
      ensures directoryFaults >= old(directoryFaults)
      ensures err.None? ==> disk == Pruned(old(disk), retain)
      ensures Thinned(old(disk), disk, retain)
      ensures disk.current == old(disk).current && disk.previous == old(disk).previous
      ensures old(Sound()) ==> Sound()
    {
      var limit := if retain < 0 then 0 else retain;
      var versions := InstalledVersions();
      ghost var i;
      err, i := RemoveBeyond(versions, Referenced(disk), limit);
      GoneIsDoomed(versions, i, old(disk), retain);
      GoneIsThinned(old(disk), GoneFrom(versions, i, Referenced(old(disk)), limit), retain);
    }
  }

  /** How many of versions[k..] are not in `keep`. */
  function CountFrom(versions: seq<string>, k: nat, keep: set<string>): nat
    requires k <= |versions|
    decreases |versions| - k
  {
    if k == |versions| then 0
    else CountFrom(versions, k + 1, keep) + if versions[k] in keep then 0 else 1
  }

  /** Which of versions[k..] the walk deletes. */
  function GoneFrom(versions: seq<string>, k: nat, keep: set<string>, limit: nat): set<string>
    requires k <= |versions|
    decreases |versions| - k
  {
    if k == |versions| then {}
    else
      GoneFrom(versions, k + 1, keep, limit)
      + if versions[k] in keep || CountFrom(versions, k + 1, keep) < limit then {} else {versions[k]}
  }

  lemma NextElement(versions: seq<string>, k: nat)
    requires Lex.Sorted(versions) && k < |versions|
    ensures Lex.Elements(versions[k..]) == {versions[k]} + Lex.Elements(versions[k + 1..])
    ensures versions[k] !in Lex.Elements(versions[k + 1..])
  {
    NotLater(versions, k, k + 1);
    assert versions[k..] == [versions[k]] + versions[k + 1..];
  }

  lemma {:induction false} CountIsSize(versions: seq<string>, k: nat, keep: set<string>)
    requires Lex.Sorted(versions) && k <= |versions|
    ensures CountFrom(versions, k, keep) == |Lex.Elements(versions[k..]) - keep|
    decreases |versions| - k
  {
    if k < |versions| {
      CountIsSize(versions, k + 1, keep);
      NextElement(versions, k);
      OneMore(versions[k], Lex.Elements(versions[k + 1..]), keep);
    }
  }

  lemma OneMore(v: string, later: set<string>, keep: set<string>)
    requires v !in later
    ensures |({v} + later) - keep| == |later - keep| + if v in keep then 0 else 1
  {
    if v in keep {
      assert ({v} + later) - keep == later - keep;
    } else {
      assert ({v} + later) - keep == (later - keep) + {v};
    }
  }

  /** The walk from k on deletes a version exactly when it lies past k with `limit` kept after it. */
  lemma {:induction false} GoneMembers(versions: seq<string>, k: nat, keep: set<string>, limit: nat, i: nat)
    requires Lex.Sorted(versions) && k <= |versions| && i < |versions|
    ensures versions[i] in GoneFrom(versions, k, keep, limit) <==>
            k <= i && versions[i] !in keep && CountFrom(versions, i + 1, keep) >= limit
    decreases |versions| - k
  {
    if k < |versions| {
      GoneMembers(versions, k + 1, keep, limit, i);
      if k != i {
        NotLater(versions, Min(i, k), Max(i, k));
        assert versions[i] != versions[k];
      }
    }
  }

  lemma {:induction false} GoneAreListed(versions: seq<string>, k: nat, keep: set<string>, limit: nat)
    requires k <= |versions|
    ensures GoneFrom(versions, k, keep, limit) <= Lex.Elements(versions)
    decreases |versions| - k
  {
    if k < |versions| {
      GoneAreListed(versions, k + 1, keep, limit);
      Lex.InElements(versions[k], versions);
    }
  }

  /** The walk deletes only doomed releases, and once finished all of them. */
  lemma GoneIsDoomed(versions: seq<string>, k: nat, d: Disk, retain: int)
    requires versions == Lex.SortedOf(d.releases.Keys) && k <= |versions|
    ensures GoneFrom(versions, k, Referenced(d), Max(0, retain)) <= Doomed(d, retain)
    ensures k == 0 ==> GoneFrom(versions, k, Referenced(d), Max(0, retain)) == Doomed(d, retain)
  {
    var limit := Max(0, retain);
    GoneAreListed(versions, k, Referenced(d), limit);
    forall u | u in d.releases
      ensures u in GoneFrom(versions, k, Referenced(d), limit) ==> u in Doomed(d, retain)
      ensures k == 0 && u in Doomed(d, retain) ==> u in GoneFrom(versions, k, Referenced(d), limit)
    {
      Lex.InElements(u, versions);
      var i :| 0 <= i < |versions| && versions[i] == u;
      GoneMembers(versions, k, Referenced(d), limit, i);
      if u in Others(d) {
        WalkedRank(versions, i, d);
      }
    }
  }

  lemma WalkedRank(versions: seq<string>, i: nat, d: Disk)
    requires versions == Lex.SortedOf(d.releases.Keys) && i < |versions| && versions[i] in Others(d)
    ensures CountFrom(versions, i + 1, Referenced(d)) == Rank(versions[i], Others(d))
  {
    CountIsSize(versions, i + 1, Referenced(d));
    RankIsPassed(versions[i], versions, i, Others(d));
    var later := Lex.Elements(versions[i + 1..]);
    assert later <= Lex.Elements(versions) == d.releases.Keys;
    assert later - Referenced(d) == Others(d) * later;
  }

  /** An unreferenced version's rank is the number of unreferenced ones already walked past. */
  lemma RankIsPassed(v: string, versions: seq<string>, i: nat, pool: set<string>)
    requires Lex.Sorted(versions) && i < |versions| && versions[i] == v && v in pool
    requires pool <= Lex.Elements(versions)
    ensures Rank(v, pool) == |pool * Lex.Elements(versions[i + 1..])|
  {
    var above := Above(v, pool);
    forall u | u in pool ensures u in above <==> u in Lex.Elements(versions[i + 1..]) {
      Lex.InElements(u, versions);
      var j :| 0 <= j < |versions| && versions[j] == u;
      if j <= i {
        if j < i { Lex.Asymmetric(versions[j], v); } else { Lex.Irreflexive(v); }
        NotLater(versions, j, i + 1);
      } else {
        assert versions[i + 1..][j - i - 1] == u;
      }
    }
    assert above == pool * Lex.Elements(versions[i + 1..]);
  }
}
