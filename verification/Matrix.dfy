// agent/version/compatibility.go: the explicit compatibility matrix.
module Matrix {
  import opened Prelude
  import SemVer

  /** A status is an open string in the document; `Other` is any text the code does not know. */
  datatype Status = Supported | Partial | Experimental | Unsupported | Unknown | Other(text: UnknownText)

  type UnknownText = s: string |
    s != "SUPPORTED" && s != "PARTIAL" && s != "EXPERIMENTAL" && s != "UNSUPPORTED" && s != "UNKNOWN"

  datatype Entry = Entry(core: string, adapter: string, adapterRange: string, dashboardRange: string, status: Status)

  predicate Usable(s: Status) {
    s.Supported? || s.Partial? || s.Experimental?
  }

  predicate Recognized(s: Status) {
    !s.Other?
  }

  predicate Matches(e: Entry, core: string, adapter: string, version: string) {
    e.core == core && e.adapter == adapter && (e.adapterRange == "" || SemVer.Satisfies(version, e.adapterRange))
  }

  /** The status of the first matching row; Unknown when there is none. */
  function Lookup(rows: seq<Entry>, core: string, adapter: string, version: string): Status {
    if rows == [] then Unknown
    else if Matches(rows[0], core, adapter, version) then rows[0].status
    else Lookup(rows[1..], core, adapter, version)
  }

  /**
   * The answer is that of the first row which names exactly this core version and this adapter and
   * whose range, if it has one, takes the version; without such a row it is Unknown.
   */
  lemma {:induction false} LookupIsFirstMatch(rows: seq<Entry>, core: string, adapter: string, version: string)
    returns (i: nat)
    ensures i <= |rows|
    ensures forall j | 0 <= j < i ::
              rows[j].core != core || rows[j].adapter != adapter
              || (rows[j].adapterRange != "" && !SemVer.Satisfies(version, rows[j].adapterRange))
    ensures if i == |rows| then Lookup(rows, core, adapter, version) == Unknown
            else rows[i].core == core && rows[i].adapter == adapter
                 && (rows[i].adapterRange == "" || SemVer.Satisfies(version, rows[i].adapterRange))
                 && Lookup(rows, core, adapter, version) == rows[i].status
    decreases rows
  {
    hide SemVer.Satisfies;
    i := 0;
    if rows != [] && !Matches(rows[0], core, adapter, version) {
      i := LookupIsFirstMatch(rows[1..], core, adapter, version);
      i := i + 1;
    }
  }

  /** A status other than Unknown always comes from a row naming exactly that core and adapter. */
  lemma LookupNeverGuesses(rows: seq<Entry>, core: string, adapter: string, version: string)
    ensures Lookup(rows, core, adapter, version) != Unknown ==>
              exists e | e in rows ::
                && e.core == core && e.adapter == adapter && e.status == Lookup(rows, core, adapter, version)
                && (e.adapterRange == "" || SemVer.Satisfies(version, e.adapterRange))
  {
    hide SemVer.Satisfies;
    var i := LookupIsFirstMatch(rows, core, adapter, version);
    assert i < |rows| ==> rows[i] in rows;
  }

  function ForCore(rows: seq<Entry>, core: string): seq<Entry> {
    if rows == [] then []
    else (if rows[0].core == core then [rows[0]] else []) + ForCore(rows[1..], core)
  }

  method EntriesForCore(rows: seq<Entry>, core: string) returns (out: seq<Entry>)
    ensures out == ForCore(rows, core)
    ensures forall j | 0 <= j < |out| :: out[j].core == core
  {
    out := [];
    for i := 0 to |rows|
      invariant forall j | 0 <= j < |out| :: out[j].core == core
      invariant out + ForCore(rows[i..], core) == ForCore(rows, core)
    {
      assert rows[i..][1..] == rows[i + 1..];
      if rows[i].core == core {
        out := out + [rows[i]];
      }
    }
  }

  lemma {:induction false} ForCoreMembers(rows: seq<Entry>, core: string, e: Entry)
    ensures e in ForCore(rows, core) <==> e in rows && e.core == core
  {
    if rows != [] {
      ForCoreMembers(rows[1..], core, e);
    }
  }

  function StatusRank(s: Status): nat {
    match s case Supported => 3 case Partial => 2 case Experimental => 1 case _ => 0
  }

  predicate Selectable(e: Entry, core: string) {
    e.core == core && e.adapter != "UNKNOWN" && e.adapter != "" && Usable(e.status)
  }

  /** The choice made among the rows of one core version, as a function of them. */
  function BestRow(rows: seq<Entry>, core: string): Option<Entry> {
    if rows == [] then None
    else
      var e, before := rows[|rows| - 1], BestRow(rows[..|rows| - 1], core);
      if Selectable(e, core) && (before.None? || StatusRank(e.status) > StatusRank(before.value.status)) then Some(e)
      else before
  }

  /**
   * rows[i] is e, which is picked over all other usable rows for this core version that name an
   * adapter: SUPPORTED before PARTIAL before EXPERIMENTAL, and the first among equals.
   */
  predicate IsFirstBest(rows: seq<Entry>, core: string, i: nat, e: Entry)
    requires i < |rows|
  {
    && rows[i] == e && e.core == core && e.adapter != "UNKNOWN" && e.adapter != ""
    && (e.status.Supported? || e.status.Partial? || e.status.Experimental?)
    && forall j | 0 <= j < |rows| && rows[j].core == core && rows[j].adapter != "UNKNOWN" && rows[j].adapter != "" ::
         && (rows[j].status.Supported? ==> e.status.Supported?)
         && (rows[j].status.Partial? ==> !e.status.Experimental?)
         && (j < i ==> rows[j].status != e.status)
  }

  /** That choice is the first of the best rows, and none exactly when no row can be picked. */
  lemma {:induction false} BestRowIsFirstBest(rows: seq<Entry>, core: string)
    ensures BestRow(rows, core).None? <==>
            forall j | 0 <= j < |rows| ::
              var e := rows[j];
              || e.core != core || e.adapter == "UNKNOWN" || e.adapter == ""
              || (!e.status.Supported? && !e.status.Partial? && !e.status.Experimental?)
    ensures var best := BestRow(rows, core);
            best.Some? ==> exists i | 0 <= i < |rows| :: IsFirstBest(rows, core, i, best.value)
  {
    if rows != [] {
      var front, e := rows[..|rows| - 1], rows[|rows| - 1];
      BestRowIsFirstBest(front, core);
      assert forall j | 0 <= j < |front| :: rows[j] == front[j];
      var best := BestRow(rows, core);
      if best == BestRow(front, core) {
        if best.Some? {
          var i :| 0 <= i < |front| && IsFirstBest(front, core, i, best.value);
          assert IsFirstBest(rows, core, i, best.value);
        }
      } else {
        assert IsFirstBest(rows, core, |front|, e);
      }
    }
  }

  lemma {:induction false} ForCoreGrows(rows: seq<Entry>, e: Entry, core: string)
    ensures ForCore(rows + [e], core) == ForCore(rows, core) + if e.core == core then [e] else []
  {
    if rows == [] {
      assert rows + [e] == [e] && [e][1..] == [];
    } else {
      ForCoreGrows(rows[1..], e, core);
      assert (rows + [e])[1..] == rows[1..] + [e];
    }
  }

  lemma BestRowOfNone(core: string)
    ensures BestRow([], core) == None
  {
  }

  lemma BestRowNext(rows: seq<Entry>, e: Entry, core: string)
    ensures var before := BestRow(rows, core);
            BestRow(rows + [e], core)
            == if Selectable(e, core) && (before.None? || StatusRank(e.status) > StatusRank(before.value.status))
               then Some(e) else before
  {
    assert (rows + [e])[..|rows|] == rows;
  }

  lemma BestRowForCoreNext(rows: seq<Entry>, e: Entry, core: string)
    requires BestRow(ForCore(rows, core), core) == BestRow(rows, core)
    ensures BestRow(ForCore(rows + [e], core), core) == BestRow(rows + [e], core)
  {
    hide StatusRank;
    var picked := ForCore(rows, core);
    ForCoreGrows(rows, e, core);
    BestRowNext(rows, e, core);
    if e.core == core {
      BestRowNext(picked, e, core);
    } else {
      assert picked + [] == picked;
    }
  }

  /** Looking only at the rows of the core version makes no difference to the choice. */
  lemma {:induction false} BestRowForCore(rows: seq<Entry>, core: string)
    ensures BestRow(ForCore(rows, core), core) == BestRow(rows, core)
  {
    if rows != [] {
      BestRowForCore(rows[..|rows| - 1], core);
      BestRowForCoreNext(rows[..|rows| - 1], rows[|rows| - 1], core);
      assert rows == rows[..|rows| - 1] + [rows[|rows| - 1]];
    }
  }

  lemma BestRowStep(rows: seq<Entry>, i: nat, core: string)
    requires i < |rows|
    ensures var before, e := BestRow(rows[..i], core), rows[i];
            BestRow(rows[..i + 1], core)
            == if Selectable(e, core) && (before.None? || StatusRank(e.status) > StatusRank(before.value.status))
               then Some(e) else before
  {
    assert rows[..i + 1] == rows[..i] + [rows[i]];
    BestRowNext(rows[..i], rows[i], core);
  }

  /** The loop with best and bestRank, over rows of one core version. */
  method PickBest(entries: seq<Entry>, core: string) returns (best: Option<Entry>)
    requires forall j | 0 <= j < |entries| :: entries[j].core == core
    ensures best == BestRow(entries, core)
  {
    hide BestRow;
    best := None;
    var bestRank := 0;
    BestRowOfNone(core);
    for i := 0 to |entries|
      invariant best == BestRow(entries[..i], core)
      invariant best.Some? ==> Selectable(best.value, core)
      invariant bestRank == (if best.Some? then StatusRank(best.value.status) else 0)
    {
      var e := entries[i];
      BestRowStep(entries, i, core);
      if e.adapter != "UNKNOWN" && e.adapter != "" && Usable(e.status) && StatusRank(e.status) > bestRank {
        best, bestRank := Some(e), StatusRank(e.status);
      }
    }
    assert entries[..|entries|] == entries;
  }

  /** The best usable row for a core version; it never looks at the adapter version range. */
  method BestAdapterFor(rows: seq<Entry>, core: string) returns (best: Option<Entry>)
    ensures best == BestRow(rows, core)
    ensures best.Some? ==> exists i | 0 <= i < |rows| :: IsFirstBest(rows, core, i, best.value)
  {
    var entries := EntriesForCore(rows, core);
    best := PickBest(entries, core);
    BestRowForCore(rows, core);
    BestRowIsFirstBest(rows, core);
  }
}
