// agent/alerts/alerts.go over agent/storage/alerts.go: alerts opened and resolved on edges.
module Alerts {
  import opened Prelude
  import Lex

  datatype Severity = Info | Warning | Critical

  /** `evaluate` says whether the rule's condition holds of a snapshot, and the message if so. */
  datatype Rule<!S> = Rule(id: string, severity: Severity, title: string, evaluate: S -> (bool, string))

  /** Times are the texts the table holds (RFC 3339 with nanoseconds). */
  datatype Alert = Alert(
    id: nat, ruleId: string, severity: Severity, title: string, message: string, createdAt: string,
    resolved: bool, resolvedAt: Option<string>)

  datatype Event = AlertCreated(alert: Alert) | AlertResolved(alert: Alert)

  /* ---------- The alerts table ---------- */

  predicate IsOpen(a: Alert, ruleId: string) {
    a.ruleId == ruleId && !a.resolved
  }

  function OpenCount(rows: seq<Alert>, ruleId: string): nat {
    if rows == [] then 0
    else OpenCount(rows[..|rows| - 1], ruleId) + if IsOpen(rows[|rows| - 1], ruleId) then 1 else 0
  }

  function RowCount(rows: seq<Alert>, ruleId: string): nat {
    if rows == [] then 0
    else RowCount(rows[..|rows| - 1], ruleId) + if rows[|rows| - 1].ruleId == ruleId then 1 else 0
  }

  /** UPDATE alerts SET resolved ... WHERE rule_id = ruleId AND resolved = 0. */
  function Resolved(rows: seq<Alert>, ruleId: string, at: string): seq<Alert> {
    if rows == [] then []
    else
      var a := rows[|rows| - 1];
      Resolved(rows[..|rows| - 1], ruleId, at)
      + [if IsOpen(a, ruleId) then a.(resolved := true, resolvedAt := Some(at)) else a]
  }

  lemma {:induction false} ResolvedCounts(rows: seq<Alert>, ruleId: string, at: string, other: string)
    ensures OpenCount(Resolved(rows, ruleId, at), other) == (if other == ruleId then 0 else OpenCount(rows, other))
    ensures RowCount(Resolved(rows, ruleId, at), other) == RowCount(rows, other)
  {
    if rows != [] {
      ResolvedCounts(rows[..|rows| - 1], ruleId, at, other);
      var r := Resolved(rows, ruleId, at);
      assert r[..|r| - 1] == Resolved(rows[..|rows| - 1], ruleId, at);
    }
  }

  /** Resolving marks a rule's open alerts with the time and leaves every other row as it is. */
  lemma {:induction false} ResolvedExactly(rows: seq<Alert>, ruleId: string, at: string)
    ensures |Resolved(rows, ruleId, at)| == |rows|
    ensures forall i | 0 <= i < |rows| ::
              Resolved(rows, ruleId, at)[i]
              == if rows[i].ruleId == ruleId && !rows[i].resolved
                 then rows[i].(resolved := true, resolvedAt := Some(at))
                 else rows[i]
  {
    if rows != [] {
      ResolvedExactly(rows[..|rows| - 1], ruleId, at);
    }
  }

  lemma AppendedCounts(rows: seq<Alert>, a: Alert, other: string)
    ensures OpenCount(rows + [a], other) == OpenCount(rows, other) + if IsOpen(a, other) then 1 else 0
    ensures RowCount(rows + [a], other) == RowCount(rows, other) + if a.ruleId == other then 1 else 0
  {
  }

  lemma {:induction false} OpenCountZero(rows: seq<Alert>, ruleId: string)
    ensures OpenCount(rows, ruleId) == 0 <==> forall a | a in rows :: !IsOpen(a, ruleId)
  {
    if rows != [] {
      OpenCountZero(rows[..|rows| - 1], ruleId);
      assert rows == rows[..|rows| - 1] + [rows[|rows| - 1]];
    }
  }

  class AlertStore {
    var rows: seq<Alert>

    constructor (rows: seq<Alert>)
      ensures this.rows == rows
    {
      this.rows := rows;
    }

    /**
     * Stores an alert as unresolved, under the next id; an empty creation time becomes `now`. The
     * alert returned is the caller's own with these two fields filled in.
     */
    method Create(a: Alert, now: string) returns (created: Alert)
      modifies this
      ensures created == a.(id := |old(rows)| + 1, createdAt := if a.createdAt == "" then now else a.createdAt)
      ensures rows == old(rows) + [created.(resolved := false, resolvedAt := None)]
    {
      created := a;
      if created.createdAt == "" {
        created := created.(createdAt := now);
      }
      created := created.(id := |rows| + 1);
      rows := rows + [created.(resolved := false, resolvedAt := None)];
    }

    /** The unresolved alert of a rule whose creation time sorts last, as text. */
    method OpenByRule(ruleId: string) returns (found: Option<Alert>)
      ensures found.None? <==> forall a | a in rows :: !IsOpen(a, ruleId)
      ensures found.Some? ==> found.value in rows && IsOpen(found.value, ruleId)
                              && forall a | a in rows && IsOpen(a, ruleId) ::
                                !Lex.Less(found.value.createdAt, a.createdAt)
    {
      found := None;
      for i := 0 to |rows|
        invariant found.None? <==> forall j | 0 <= j < i :: !IsOpen(rows[j], ruleId)
        invariant found.Some? ==> found.value in rows && IsOpen(found.value, ruleId)
        invariant found.Some? ==>
                    forall j | 0 <= j < i && IsOpen(rows[j], ruleId) ::
                      !Lex.Less(found.value.createdAt, rows[j].createdAt)
      {
        if IsOpen(rows[i], ruleId) && (found.None? || Lex.Less(found.value.createdAt, rows[i].createdAt)) {
          if found.Some? {
            forall j | 0 <= j < i && IsOpen(rows[j], ruleId) ensures !Lex.Less(rows[i].createdAt, rows[j].createdAt) {
              if Lex.Less(rows[i].createdAt, rows[j].createdAt) {
                Lex.Transitive(found.value.createdAt, rows[i].createdAt, rows[j].createdAt);
              }
            }
          }
          Lex.Irreflexive(rows[i].createdAt);
          found := Some(rows[i]);
        }
      }
    }

    method ResolveByRule(ruleId: string, at: string)
      modifies this
      ensures rows == Resolved(old(rows), ruleId, at)
    {
      rows := Resolved(rows, ruleId, at);
    }
  }

  /* ---------- Edges ---------- */

  function LastOr(start: bool, fires: seq<bool>): bool {
    if fires == [] then start else fires[|fires| - 1]
  }

  /** The changes of a firing sequence: true for a rise, false for a fall. */
  function Edges(start: bool, fires: seq<bool>): seq<bool> {
    if fires == [] then []
    else
      var front, now := fires[..|fires| - 1], fires[|fires| - 1];
      Edges(start, front) + if now != LastOr(start, front) then [now] else []
  }

  function Rises(start: bool, fires: seq<bool>): nat {
    if fires == [] then 0
    else
      var front, now := fires[..|fires| - 1], fires[|fires| - 1];
      Rises(start, front) + if now && !LastOr(start, front) then 1 else 0
  }

  /** Strict alternation, beginning with the opposite of the start. */
  predicate Alternating(start: bool, es: seq<bool>) {
    forall i | 0 <= i < |es| :: es[i] == (start != (i % 2 == 0))
  }

  lemma AlternatingGrows(start: bool, es: seq<bool>, now: bool)
    requires Alternating(start, es) && now != LastOr(start, es)
    ensures Alternating(start, es + [now])
  {
    var n := |es|;
    assert n > 0 ==> es[n - 1] == (start != ((n - 1) % 2 == 0));
    assert (n % 2 == 0) == (n == 0 || (n - 1) % 2 != 0);
    assert now == (start != (n % 2 == 0));
  }

  /** Edges strictly alternate, beginning with the opposite of the start and ending on the last firing. */
  lemma {:induction false} EdgesAlternate(start: bool, fires: seq<bool>)
    ensures Alternating(start, Edges(start, fires))
    ensures LastOr(start, Edges(start, fires)) == LastOr(start, fires)
  {
    if fires != [] {
      var front, now := fires[..|fires| - 1], fires[|fires| - 1];
      EdgesAlternate(start, front);
      if now != LastOr(start, front) {
        AlternatingGrows(start, Edges(start, front), now);
      }
    }
  }

  /** One creation per rise, and no other. */
  lemma {:induction false} CreationsAreRises(start: bool, fires: seq<bool>)
    ensures multiset(Edges(start, fires))[true] == Rises(start, fires)
  {
    if fires != [] {
      CreationsAreRises(start, fires[..|fires| - 1]);
    }
  }

  lemma EdgesGrow(start: bool, fires: seq<bool>, now: bool)
    ensures Edges(start, fires + [now]) == Edges(start, fires) + (if now != LastOr(start, fires) then [now] else [])
    ensures Rises(start, fires + [now]) == Rises(start, fires) + (if now && !LastOr(start, fires) then 1 else 0)
    ensures LastOr(start, fires + [now]) == now
  {
  }

  /** The created (true) and resolved (false) events published for one rule, in order. */
  function EventsOf(events: seq<Event>, ruleId: string): seq<bool> {
    if events == [] then []
    else
      var e := events[|events| - 1];
      EventsOf(events[..|events| - 1], ruleId) + if e.alert.ruleId == ruleId then [e.AlertCreated?] else []
  }

  lemma EventsGrow(events: seq<Event>, e: Event, ruleId: string)
    ensures EventsOf(events + [e], ruleId)
            == EventsOf(events, ruleId) + (if e.alert.ruleId == ruleId then [e.AlertCreated?] else [])
  {
  }

  /* ---------- The engine ---------- */

  /** What the engine has seen of one rule: open at first?, rows at first, and every firing since. */
  datatype Past = Past(openAtFirst: bool, rowsAtFirst: nat, fires: seq<bool>)

  /** The table and the events so far are what the rule's firings call for. */
  ghost predicate Explains(p: Past, rows: seq<Alert>, events: seq<Event>, ruleId: string) {
    && OpenCount(rows, ruleId) == (if LastOr(p.openAtFirst, p.fires) then 1 else 0)
    && EventsOf(events, ruleId) == Edges(p.openAtFirst, p.fires)
    && RowCount(rows, ruleId) == p.rowsAtFirst + Rises(p.openAtFirst, p.fires)
  }

  function Seen(p: Past, firing: bool): Past {
    p.(fires := p.fires + [firing])
  }

  /** What a rule's turn does to the table and the events. */
  datatype Turn = Quiet | Rise(created: Alert) | Fall(closed: Alert, at: string)

  function RowsAfter(rows: seq<Alert>, t: Turn): seq<Alert> {
    match t
    case Quiet => rows
    case Rise(a) => rows + [a]
    case Fall(a, at) => Resolved(rows, a.ruleId, at)
  }

  function EventsAfter(events: seq<Event>, t: Turn): seq<Event> {
    match t
    case Quiet => events
    case Rise(a) => events + [AlertCreated(a)]
    case Fall(a, _) => events + [AlertResolved(a)]
  }

  /** A turn that follows the edge of one rule keeps every rule explained. */
  lemma TurnExplains(p: Past, p': Past, rows: seq<Alert>, events: seq<Event>, rows': seq<Alert>, events': seq<Event>,
                     ruleId: string, changed: string, firing: bool, t: Turn)
    requires Explains(p, rows, events, ruleId)
    requires rows' == RowsAfter(rows, t) && events' == EventsAfter(events, t)
    requires p' == if ruleId == changed then Seen(p, firing) else p
    requires t.Rise? <==> firing && OpenCount(rows, changed) == 0
    requires t.Fall? <==> !firing && OpenCount(rows, changed) != 0
    requires t.Rise? ==> IsOpen(t.created, changed)
    requires t.Fall? ==> t.closed.ruleId == changed
    ensures Explains(p', rows', events', ruleId)
  {
    EdgesGrow(p.openAtFirst, p.fires, firing);
    match t {
      case Quiet =>
      case Rise(a) =>
        AppendedCounts(rows, a, ruleId);
        EventsGrow(events, AlertCreated(a), ruleId);
      case Fall(a, at) =>
        ResolvedCounts(rows, changed, at, ruleId);
        EventsGrow(events, AlertResolved(a), ruleId);
    }
  }

  /** The event tells of this verdict on a rule, at that time and in those words. */
  predicate Tells<S>(e: Event, rule: Rule<S>, firing: bool, message: string, now: string) {
    && e.alert.ruleId == rule.id
    && (e.AlertCreated? <==> firing)
    && (firing ==>
          && e.alert.severity == rule.severity && e.alert.title == rule.title && e.alert.message == message
          && e.alert.createdAt == now && !e.alert.resolved)
    && (!firing ==> e.alert.resolved && e.alert.resolvedAt == Some(now))
  }

  /** The event tells of the rule's own verdict on the snapshot. */
  predicate Reports<S>(e: Event, rule: Rule<S>, s: S, now: string) {
    Tells(e, rule, rule.evaluate(s).0, rule.evaluate(s).1, now)
  }

  ghost predicate ReportsOneOf<S>(e: Event, rules: seq<Rule<S>>, s: S, now: string) {
    exists k | 0 <= k < |rules| :: Reports(e, rules[k], s, now)
  }

  class Engine<S(!new)> {
    const store: AlertStore
    var rules: seq<Rule<S>>
    var published: seq<Event>
    ghost var pasts: seq<Past>
    /** The ids of the rules added so far. */
    ghost var ids: set<string>

    /** Of every rule: at most one open alert, open exactly when it fired last, one event per edge. */
    ghost predicate Valid()
      reads this, store
    {
      && |pasts| == |rules|
      && (forall i, j | 0 <= i < j < |rules| :: rules[i].id != rules[j].id)
      && (forall i | 0 <= i < |rules| :: Explains(pasts[i], store.rows, published, rules[i].id))
      && (forall i | 0 <= i < |rules| :: rules[i].id in ids)
      && (forall e | e in published :: e.alert.ruleId in ids)
    }

    /** An engine starts without rules on whatever the table holds. */
    constructor (store: AlertStore)
      ensures Valid() && this.store == store && rules == [] && published == [] && ids == {}
    {
      this.store := store;
      rules, published, pasts, ids := [], [], [], {};
    }

    method AddRule(r: Rule<S>)
      requires Valid() && OpenCount(store.rows, r.id) <= 1 && r.id !in ids
      modifies this
      ensures Valid() && rules == old(rules) + [r] && published == old(published) && ids == old(ids) + {r.id}
      ensures pasts == old(pasts) + [Past(OpenCount(store.rows, r.id) == 1, RowCount(store.rows, r.id), [])]
    {
      NoEventsYet(published, r.id);
      rules := rules + [r];
      ids := ids + {r.id};
      pasts := pasts + [Past(OpenCount(store.rows, r.id) == 1, RowCount(store.rows, r.id), [])];
      assert forall i | 0 <= i < |old(rules)| :: rules[i] == old(rules)[i] && pasts[i] == old(pasts)[i];
    }

    /** One rule's turn: create on a rise, resolve on a fall, nothing while it keeps firing or not. */
    method TakeTurn(rule: Rule<S>, firing: bool, message: string, now: string) returns (ghost turn: Turn)
      modifies this`published, store
      ensures store.rows == RowsAfter(old(store.rows), turn)
      ensures published == EventsAfter(old(published), turn)
      ensures turn.Rise? <==> firing && OpenCount(old(store.rows), rule.id) == 0
      ensures turn.Fall? <==> !firing && OpenCount(old(store.rows), rule.id) != 0
      ensures turn.Rise? ==>
                && turn.created == Alert(|store.rows|, rule.id, rule.severity, rule.title, message, now, false, None)
                && store.rows == old(store.rows) + [turn.created]
                && published == old(published) + [AlertCreated(turn.created)]
      ensures turn.Fall? ==>
                && published == old(published) + [AlertResolved(turn.closed)]
                && exists a | a in old(store.rows) ::
                     a.ruleId == rule.id && !a.resolved
                     && turn.closed == a.(resolved := true, resolvedAt := Some(now))
      ensures turn.Quiet? ==> store.rows == old(store.rows) && published == old(published)
      ensures forall n | |old(published)| <= n < |published| :: Tells(published[n], rule, firing, message, now)
    {
      var existing := store.OpenByRule(rule.id);
      OpenCountZero(store.rows, rule.id);
      turn := Quiet;
      if firing && existing.None? {
        var created := store.Create(Alert(0, rule.id, rule.severity, rule.title, message, now, false, None), now);
        published := published + [AlertCreated(created)];
        turn := Rise(created);
      } else if !firing && existing.Some? {
        store.ResolveByRule(rule.id, now);
        var closed := existing.value.(resolved := true, resolvedAt := Some(now));
        published := published + [AlertResolved(closed)];
        turn := Fall(closed, now);
      }
    }

    method EvaluateRule(i: nat, s: S, now: string)
      requires Valid() && i < |rules|
      modifies this`published, this`pasts, store
      ensures Valid()
      ensures pasts == old(pasts)[i := Seen(old(pasts)[i], rules[i].evaluate(s).0)]
      ensures old(published) <= published
      ensures forall n | |old(published)| <= n < |published| :: Reports(published[n], rules[i], s, now)
    {
      hide Explains, Tells;
      ghost var rows, events, before := store.rows, published, pasts;
      assert Explains(before[i], rows, events, rules[i].id);
      var (firing, message) := rules[i].evaluate(s);
      ghost var turn := TakeTurn(rules[i], firing, message, now);
      pasts := pasts[i := Seen(pasts[i], firing)];
      forall k | 0 <= k < |rules| ensures Explains(pasts[k], store.rows, published, rules[k].id) {
        assert Explains(before[k], rows, events, rules[k].id);
        assert rules[k].id == rules[i].id <==> k == i;
        TurnExplains(before[k], pasts[k], rows, events, store.rows, published, rules[k].id, rules[i].id, firing, turn);
      }
    }

    /** Runs every rule on one snapshot. */
    method Evaluate(s: S, now: string)
      requires Valid()
      modifies this`published, this`pasts, store
      ensures Valid() && old(published) <= published
      ensures forall k | 0 <= k < |rules| ::
                pasts[k] == Seen(old(pasts)[k], rules[k].evaluate(s).0)
      ensures forall n | |old(published)| <= n < |published| ::
                ReportsOneOf(published[n], rules, s, now)
    {
      hide Explains, Reports;
      for i := 0 to |rules|
        invariant Valid() && old(published) <= published
        invariant forall n | |old(published)| <= n < |published| :: ReportsOneOf(published[n], rules, s, now)
        invariant forall k | 0 <= k < i ::
                    pasts[k] == Seen(old(pasts)[k], rules[k].evaluate(s).0)
        invariant forall k | i <= k < |rules| :: pasts[k] == old(pasts)[k]
      {
        ghost var before := published;
        EvaluateRule(i, s, now);
        forall n | |old(published)| <= n < |published| ensures ReportsOneOf(published[n], rules, s, now) {
          if n < |before| {
            assert published[n] == before[n];
          }
        }
      }
    }
  }

  lemma {:induction false} NoEventsYet(events: seq<Event>, ruleId: string)
    requires forall e | e in events :: e.alert.ruleId != ruleId
    ensures EventsOf(events, ruleId) == []
  {
    if events != [] {
      NoEventsYet(events[..|events| - 1], ruleId);
    }
  }

  /** One rule's past after a sequence of snapshots. */
  function After<S>(p: Past, r: Rule<S>, snapshots: seq<S>): Past {
    if snapshots == [] then p
    else Seen(After(p, r, snapshots[..|snapshots| - 1]), r.evaluate(snapshots[|snapshots| - 1]).0)
  }

  lemma AfterOneMore<S>(p: Past, r: Rule<S>, snapshots: seq<S>, n: nat)
    requires n < |snapshots|
    ensures After(p, r, snapshots[..n + 1]) == Seen(After(p, r, snapshots[..n]), r.evaluate(snapshots[n]).0)
  {
    assert snapshots[..n + 1][..n] == snapshots[..n];
  }

  /** The firings are the rule's own verdicts, one per snapshot, in order. */
  lemma {:induction false} AfterFires<S>(p: Past, r: Rule<S>, snapshots: seq<S>)
    ensures var q := After(p, r, snapshots);
            && q.openAtFirst == p.openAtFirst && q.rowsAtFirst == p.rowsAtFirst
            && |q.fires| == |p.fires| + |snapshots| && p.fires <= q.fires
            && forall i | 0 <= i < |snapshots| :: q.fires[|p.fires| + i] == r.evaluate(snapshots[i]).0
  {
    if snapshots != [] {
      AfterFires(p, r, snapshots[..|snapshots| - 1]);
    }
  }

  /**
   * A rule's created (true) and resolved (false) events alternate strictly, its rows are one for each
   * created event, and it has at most one open alert, exactly when it fired last.
   */
  ghost predicate Strict(p: Past, rows: seq<Alert>, events: seq<bool>, ruleId: string) {
    && Alternating(p.openAtFirst, events)
    && RowCount(rows, ruleId) == p.rowsAtFirst + multiset(events)[true]
    && OpenCount(rows, ruleId) == (if LastOr(p.openAtFirst, p.fires) then 1 else 0)
    && LastOr(p.openAtFirst, events) == LastOr(p.openAtFirst, p.fires)
  }

  lemma ExplainedIsStrict(p: Past, rows: seq<Alert>, events: seq<Event>, ruleId: string)
    requires Explains(p, rows, events, ruleId)
    ensures Strict(p, rows, EventsOf(events, ruleId), ruleId)
  {
    EdgesAlternate(p.openAtFirst, p.fires);
    CreationsAreRises(p.openAtFirst, p.fires);
  }

  /**
   * Over any sequence of snapshots: each rule's events are exactly the edges of its firings, so they
   * strictly alternate; it has one open alert exactly when it fired last; it created one per rise.
   */
  method Run<S(!new)>(e: Engine<S>, snapshots: seq<S>, times: seq<string>)
    requires e.Valid() && |times| == |snapshots|
    modifies e`published, e`pasts, e.store
    ensures e.Valid()
    ensures forall k | 0 <= k < |e.rules| ::
              var past := After(old(e.pasts)[k], e.rules[k], snapshots);
              Explains(past, e.store.rows, e.published, e.rules[k].id)
              && Strict(past, e.store.rows, EventsOf(e.published, e.rules[k].id), e.rules[k].id)
  {
    ghost var first := e.pasts;
    for n := 0 to |snapshots|
      invariant e.Valid()
      invariant forall k | 0 <= k < |e.rules| :: e.pasts[k] == After(first[k], e.rules[k], snapshots[..n])
    {
      ghost var before := e.pasts;
      e.Evaluate(snapshots[n], times[n]);
      forall k | 0 <= k < |e.rules| ensures e.pasts[k] == After(first[k], e.rules[k], snapshots[..n + 1]) {
        AfterOneMore(first[k], e.rules[k], snapshots, n);
        assert before[k] == After(first[k], e.rules[k], snapshots[..n]);
      }
    }
    assert snapshots[..|snapshots|] == snapshots;
    forall k | 0 <= k < |e.rules|
      ensures Strict(After(first[k], e.rules[k], snapshots), e.store.rows, EventsOf(e.published, e.rules[k].id),
                     e.rules[k].id)
    {
      assert Explains(e.pasts[k], e.store.rows, e.published, e.rules[k].id);
      ExplainedIsStrict(e.pasts[k], e.store.rows, e.published, e.rules[k].id);
    }
  }
}
