// agent/events/bus.go: the event bus, its buffered subscriber channels and their interleavings.
module Bus {
  import opened Prelude

  const DEFAULT_BUFFER := 32

  /* ---------- One subscriber's channel ---------- */

  /** `received` and `offered` record what the subscriber read and what was sent its way so far. */
  datatype Chan<E> = Chan(buf: seq<E>, closed: bool, received: seq<E>, offered: seq<E>)

  /** The non-blocking send: into the buffer if it has room, dropped otherwise. */
  function Sent<E>(c: Chan<E>, e: E, capacity: nat): Chan<E> {
    c.(buf := if |c.buf| < capacity then c.buf + [e] else c.buf, offered := c.offered + [e])
  }

  function Taken<E>(c: Chan<E>): Chan<E>
    requires c.buf != []
  {
    c.(buf := c.buf[1..], received := c.received + [c.buf[0]])
  }

  /** a is what is left of b after dropping some of its entries. */
  predicate Subsequence<E(==)>(a: seq<E>, b: seq<E>) {
    a == [] ||
    (b != [] &&
     var front := b[..|b| - 1];
     (a[|a| - 1] == b[|b| - 1] && Subsequence(a[..|a| - 1], front)) || Subsequence(a, front))
  }

  predicate Faithful<E(==)>(c: Chan<E>, capacity: nat) {
    |c.buf| <= capacity && Subsequence(c.received + c.buf, c.offered)
  }

  lemma SubsequenceGrows<E>(a: seq<E>, b: seq<E>, e: E)
    requires Subsequence(a, b)
    ensures Subsequence(a, b + [e]) && Subsequence(a + [e], b + [e])
  {
  }

  lemma SentStaysFaithful<E>(c: Chan<E>, e: E, capacity: nat)
    requires Faithful(c, capacity)
    ensures Faithful(Sent(c, e, capacity), capacity)
  {
    SubsequenceGrows(c.received + c.buf, c.offered, e);
    assert c.received + (c.buf + [e]) == c.received + c.buf + [e];
  }

  lemma TakenStaysFaithful<E>(c: Chan<E>, capacity: nat)
    requires Faithful(c, capacity) && c.buf != []
    ensures Faithful(Taken(c), capacity)
  {
    assert c.received + [c.buf[0]] + c.buf[1..] == c.received + c.buf;
  }

  /** Nothing is invented or reordered: a subsequence's entries all come from the whole. */
  lemma {:induction false} SubsequenceMembers<E>(a: seq<E>, b: seq<E>)
    requires Subsequence(a, b)
    ensures |a| <= |b| && multiset(a) <= multiset(b)
  {
    if a != [] {
      var front := b[..|b| - 1];
      assert b == front + [b[|b| - 1]];
      if a[|a| - 1] == b[|b| - 1] && Subsequence(a[..|a| - 1], front) {
        SubsequenceMembers(a[..|a| - 1], front);
        assert a == a[..|a| - 1] + [a[|a| - 1]];
      } else {
        SubsequenceMembers(a, front);
      }
    }
  }

  /* ---------- Interleavings ---------- */

  /** A publish in progress: the event and the subscribers still to be sent to. */
  datatype Publication<E> = Publication(event: E, todo: set<nat>)

  /** `chans` keeps closed channels too: their readers may still drain them. */
  datatype State<E> = State(
    chans: map<nat, Chan<E>>, subs: set<nat>, nextId: nat, publishing: map<nat, Publication<E>>)

  datatype Step<E> =
    | Subscribe
    | TrySubscribe
    | Unsubscribe(id: nat)
    | BeginPublish(publisher: nat, event: E)
    | Send(publisher: nat, id: nat)
    | EndPublish(publisher: nat)
    | Receive(id: nat)

  datatype Config = Config(capacity: nat, maxSubscribers: int)

  /** Publishers hold the read lock from begin to end; the others but Receive need the write lock. */
  predicate Enabled<E(==)>(s: State<E>, step: Step<E>) {
    match step
    case Subscribe | TrySubscribe | Unsubscribe(_) => s.publishing == map[]
    case BeginPublish(p, _) => p !in s.publishing
    case Send(p, id) => p in s.publishing && id in s.publishing[p].todo
    case EndPublish(p) => p in s.publishing && s.publishing[p].todo == {}
    case Receive(id) => id in s.chans && s.chans[id].buf != []
  }

  /** A step that would panic: a send on a closed (or no) channel, or closing one twice. */
  predicate Panics<E(==)>(s: State<E>, step: Step<E>) {
    match step
    case Send(_, id) => id !in s.chans || s.chans[id].closed
    case Unsubscribe(id) => id in s.subs && (id !in s.chans || s.chans[id].closed)
    case _ => false
  }

  function AddSubscriber<E>(s: State<E>): State<E> {
    var id := s.nextId + 1;
    s.(nextId := id, subs := s.subs + {id}, chans := s.chans[id := Chan([], false, [], [])])
  }

  predicate Full<E>(s: State<E>, cfg: Config) {
    cfg.maxSubscribers > 0 && |s.subs| >= cfg.maxSubscribers
  }

  function Next<E(==)>(s: State<E>, step: Step<E>, cfg: Config): State<E>
    requires Enabled(s, step) && !Panics(s, step)
  {
    match step
    case Subscribe => AddSubscriber(s)
    case TrySubscribe => if Full(s, cfg) then s else AddSubscriber(s)
    case Unsubscribe(id) =>
      if id in s.subs then s.(subs := s.subs - {id}, chans := s.chans[id := s.chans[id].(closed := true)]) else s
    case BeginPublish(p, e) => s.(publishing := s.publishing[p := Publication(e, s.subs)])
    case Send(p, id) =>
      var pub := s.publishing[p];
      s.(publishing := s.publishing[p := pub.(todo := pub.todo - {id})],
         chans := s.chans[id := Sent(s.chans[id], pub.event, cfg.capacity)])
    case EndPublish(p) => s.(publishing := s.publishing - {p})
    case Receive(id) => s.(chans := s.chans[id := Taken(s.chans[id])])
  }

  ghost predicate Inv<E(!new)>(s: State<E>, cfg: Config) {
    && s.subs <= s.chans.Keys
    && (forall id | id in s.chans :: 0 < id <= s.nextId)
    && (forall id | id in s.chans :: s.chans[id].closed <==> id !in s.subs)
    && (forall p | p in s.publishing :: s.publishing[p].todo <= s.subs)
    && (forall id | id in s.chans :: Faithful(s.chans[id], cfg.capacity))
  }

  lemma StepCannotPanic<E(!new)>(s: State<E>, step: Step<E>, cfg: Config)
    requires Inv(s, cfg) && Enabled(s, step)
    ensures !Panics(s, step)
  {
  }

  lemma SendKeepsInv<E(!new)>(s: State<E>, p: nat, id: nat, cfg: Config)
    requires Inv(s, cfg) && Enabled(s, Send(p, id))
    ensures !Panics(s, Send(p, id)) && Inv(Next(s, Send(p, id), cfg), cfg)
  {
    StepCannotPanic(s, Send(p, id), cfg);
    SentStaysFaithful(s.chans[id], s.publishing[p].event, cfg.capacity);
  }

  lemma ReceiveKeepsInv<E(!new)>(s: State<E>, id: nat, cfg: Config)
    requires Inv(s, cfg) && Enabled(s, Receive(id))
    ensures Inv(Next(s, Receive(id), cfg), cfg)
  {
    TakenStaysFaithful(s.chans[id], cfg.capacity);
  }

  lemma SubscribeKeepsInv<E(!new)>(s: State<E>, cfg: Config)
    requires Inv(s, cfg) && s.publishing == map[]
    ensures Inv(AddSubscriber(s), cfg)
  {
  }

  /** Every step keeps the invariant, and none can panic. */
  lemma StepKeepsInv<E(!new)>(s: State<E>, step: Step<E>, cfg: Config)
    requires Inv(s, cfg) && Enabled(s, step)
    ensures !Panics(s, step) && Inv(Next(s, step, cfg), cfg)
  {
    StepCannotPanic(s, step, cfg);
    match step {
      case Subscribe => SubscribeKeepsInv(s, cfg);
      case TrySubscribe => SubscribeKeepsInv(s, cfg);
      case Unsubscribe(id) =>
      case BeginPublish(p, e) =>
      case Send(p, id) => SendKeepsInv(s, p, id, cfg);
      case EndPublish(p) =>
      case Receive(id) => ReceiveKeepsInv(s, id, cfg);
    }
  }

  /** Channels only ever grow their records, are only sent to while subscribed, and keep their ids. */
  lemma StepOnlyGrows<E(!new)>(s: State<E>, step: Step<E>, cfg: Config)
    requires Inv(s, cfg) && Enabled(s, step)
    ensures !Panics(s, step)
    ensures var t := Next(s, step, cfg);
            && s.nextId <= t.nextId
            && (forall id | id in s.chans ::
                  && id in t.chans
                  && s.chans[id].offered <= t.chans[id].offered && s.chans[id].received <= t.chans[id].received
                  && (t.chans[id].offered != s.chans[id].offered ==> id in s.subs))
            && (forall id | id in t.chans && id !in s.chans :: id == t.nextId > s.nextId)
  {
    StepCannotPanic(s, step, cfg);
  }

  /** An admission through the capped door leaves the number of subscribers within the cap. */
  lemma CapHolds<E(!new)>(s: State<E>, cfg: Config)
    requires Inv(s, cfg) && Enabled(s, TrySubscribe) && cfg.maxSubscribers > 0
    ensures var t := Next(s, TrySubscribe, cfg);
            t != s ==> |t.subs| <= cfg.maxSubscribers && t.nextId in t.subs && t.nextId !in s.chans
  {
  }

  ghost predicate IsRun<E(!new)>(states: seq<State<E>>, steps: seq<Step<E>>, cfg: Config) {
    && |states| == |steps| + 1
    && states[0] == State(map[], {}, 0, map[])
    && forall k | 0 <= k < |steps| ::
         Enabled(states[k], steps[k]) && !Panics(states[k], steps[k]) && states[k + 1] == Next(states[k], steps[k], cfg)
  }

  /**
   * In every interleaving, at every moment: what a subscriber has received plus what is buffered is a
   * subsequence of what was sent its way while subscribed, and no possible next step panics.
   */
  lemma {:induction false} EveryInterleavingIsSafe<E(!new)>(states: seq<State<E>>, steps: seq<Step<E>>, cfg: Config,
                                                            k: nat)
    requires IsRun(states, steps, cfg) && k <= |steps|
    ensures Inv(states[k], cfg)
    ensures forall step | Enabled(states[k], step) :: !Panics(states[k], step)
  {
    if k > 0 {
      EveryInterleavingIsSafe(states, steps, cfg, k - 1);
      StepKeepsInv(states[k - 1], steps[k - 1], cfg);
    }
    forall step | Enabled(states[k], step) ensures !Panics(states[k], step) {
      StepKeepsInv(states[k], step, cfg);
    }
  }

  /** Ids are never reused: a channel created later has an id no earlier state has known. */
  lemma {:induction false} IdsAreNeverReused<E(!new)>(states: seq<State<E>>, steps: seq<Step<E>>, cfg: Config,
                                                      i: nat, j: nat)
    requires IsRun(states, steps, cfg) && i <= j <= |steps|
    ensures states[i].nextId <= states[j].nextId && states[i].chans.Keys <= states[j].chans.Keys
    ensures forall id | id in states[j].chans && id !in states[i].chans :: id > states[i].nextId
    decreases j - i
  {
    hide Inv, Enabled, Panics, Next;
    if i < j {
      IdsAreNeverReused(states, steps, cfg, i, j - 1);
      EveryInterleavingIsSafe(states, steps, cfg, j - 1);
      StepOnlyGrows(states[j - 1], steps[j - 1], cfg);
    }
  }

  /* ---------- What is delivered ---------- */

  /** The events sent to a subscriber in the first k steps of a run. */
  function SentAlong<E>(states: seq<State<E>>, steps: seq<Step<E>>, id: nat, k: nat): seq<E>
    requires k <= |steps| <= |states|
  {
    if k == 0 then []
    else
      SentAlong(states, steps, id, k - 1) +
      match steps[k - 1]
      case Send(p, to) =>
        if to == id && p in states[k - 1].publishing then [states[k - 1].publishing[p].event] else []
      case _ => []
  }

  /** How many of them found the subscriber's buffer full. */
  function Lost<E>(states: seq<State<E>>, steps: seq<Step<E>>, id: nat, capacity: nat, k: nat): nat
    requires k <= |steps| <= |states|
  {
    if k == 0 then 0
    else
      var s, step := states[k - 1], steps[k - 1];
      Lost(states, steps, id, capacity, k - 1)
      + if step.Send? && step.id == id && id in s.chans && |s.chans[id].buf| >= capacity then 1 else 0
  }

  /** One step adds to a channel exactly what it sends there, unless the buffer is full. */
  lemma StepDelivers<E(!new)>(s: State<E>, step: Step<E>, cfg: Config, id: nat)
    requires Enabled(s, step) && !Panics(s, step) && Inv(s, cfg)
    ensures var t := Next(s, step, cfg);
            && (step.Send? && step.id == id ==>
                  && id in s.chans && id in t.chans && step.publisher in s.publishing
                  && var c, d, e := s.chans[id], t.chans[id], s.publishing[step.publisher].event;
                     d.offered == c.offered + [e] && d.received == c.received
                     && d.buf == if |c.buf| < cfg.capacity then c.buf + [e] else c.buf)
            && (!(step.Send? && step.id == id) && id in s.chans ==>
                  id in t.chans && t.chans[id].offered == s.chans[id].offered
                  && t.chans[id].received + t.chans[id].buf == s.chans[id].received + s.chans[id].buf)
            && (id !in s.chans && id in t.chans ==> t.chans[id] == Chan([], false, [], []))
  {
    if step.Receive? && step.id == id {
      var c := s.chans[id];
      assert c.received + [c.buf[0]] + c.buf[1..] == c.received + c.buf;
    }
  }

  /**
   * In every interleaving a subscriber loses exactly the events that found its buffer full: everything
   * sent its way is received, still buffered, or counted as lost, and nothing is out of order.
   */
  lemma {:induction false} LostExactlyWhenFull<E(!new)>(states: seq<State<E>>, steps: seq<Step<E>>, cfg: Config,
                                                        k: nat, id: nat)
    requires IsRun(states, steps, cfg) && k <= |steps|
    ensures var sent, lost := SentAlong(states, steps, id, k), Lost(states, steps, id, cfg.capacity, k);
            if id in states[k].chans then
              var got := states[k].chans[id].received + states[k].chans[id].buf;
              && states[k].chans[id].offered == sent && |got| + lost == |sent| && (lost == 0 ==> got == sent)
            else sent == [] && lost == 0
  {
    hide Inv, Enabled, Panics, Next;
    if k > 0 {
      LostExactlyWhenFull(states, steps, cfg, k - 1, id);
      EveryInterleavingIsSafe(states, steps, cfg, k - 1);
      StepDelivers(states[k - 1], steps[k - 1], cfg, id);
      StepOnlyGrows(states[k - 1], steps[k - 1], cfg);
    }
  }

  /** While a publication runs, each subscriber it found is still to be sent to or has been. */
  lemma {:induction false} PublicationGoesOn<E(!new)>(states: seq<State<E>>, steps: seq<Step<E>>, cfg: Config,
                                                      i: nat, k: nat, p: nat, e: E, id: nat)
    requires IsRun(states, steps, cfg) && i < k <= |steps| && steps[i] == BeginPublish(p, e) && id in states[i].subs
    requires forall j | i < j < k :: steps[j] != EndPublish(p)
    ensures p in states[k].publishing && states[k].publishing[p].event == e
    ensures id in states[k].publishing[p].todo
            || exists m | i < m < k ::
                 steps[m] == Send(p, id) && p in states[m].publishing && states[m].publishing[p].event == e
  {
    if k > i + 1 {
      PublicationGoesOn(states, steps, cfg, i, k - 1, p, e, id);
      assert steps[k - 1] == Send(p, id) ==> states[k - 1].publishing[p].event == e;
    }
  }

  /** A publication that ends has sent its event to every subscriber it found when it began. */
  lemma PublicationReachesAll<E(!new)>(states: seq<State<E>>, steps: seq<Step<E>>, cfg: Config,
                                       i: nat, k: nat, p: nat, e: E, id: nat)
    requires IsRun(states, steps, cfg) && i < k < |steps|
    requires steps[i] == BeginPublish(p, e) && steps[k] == EndPublish(p) && id in states[i].subs
    requires forall j | i < j < k :: steps[j] != EndPublish(p)
    ensures exists m | i < m < k ::
              steps[m] == Send(p, id) && p in states[m].publishing && states[m].publishing[p].event == e
  {
    PublicationGoesOn(states, steps, cfg, i, k, p, e, id);
    assert Enabled(states[k], steps[k]);
  }

  /* ---------- A publication as a run of steps ---------- */

  /** Where some steps lead, if each is enabled in its turn and none panics. */
  function Follow<E(==)>(s: State<E>, steps: seq<Step<E>>, cfg: Config): Option<State<E>> {
    if steps == [] then Some(s)
    else
      var last := steps[|steps| - 1];
      match Follow(s, steps[..|steps| - 1], cfg)
      case None => None
      case Some(m) => if Enabled(m, last) && !Panics(m, last) then Some(Next(m, last, cfg)) else None
  }

  lemma FollowOne<E(!new)>(s: State<E>, steps: seq<Step<E>>, m: State<E>, last: Step<E>, cfg: Config)
    requires Follow(s, steps, cfg) == Some(m) && Enabled(m, last) && !Panics(m, last)
    ensures Follow(s, steps + [last], cfg) == Some(Next(m, last, cfg))
  {
    assert (steps + [last])[..|steps|] == steps;
  }

  /** The sends of one event to some subscribers, in order. */
  function Sends<E>(ids: seq<nat>): seq<Step<E>> {
    if ids == [] then [] else Sends(ids[..|ids| - 1]) + [Send(0, ids[|ids| - 1])]
  }

  /** A publication with nobody else about: begin, one send to each subscriber, end. */
  function PublishSteps<E>(e: E, ids: seq<nat>): seq<Step<E>> {
    [BeginPublish(0, e)] + Sends(ids) + [EndPublish(0)]
  }

  /** The subscribers in `ids`, and nobody else, have been sent e. */
  function SentTo<E>(s: State<E>, e: E, ids: seq<nat>, cfg: Config): State<E> {
    s.(chans := map id | id in s.chans :: if id in ids then Sent(s.chans[id], e, cfg.capacity) else s.chans[id])
  }

  /** The state of a publication with some sends done. */
  function Sending<E>(s: State<E>, e: E, ids: seq<nat>, cfg: Config): State<E> {
    SentTo(s, e, ids, cfg).(publishing := map[0 := Publication(e, s.subs - set id | id in ids)])
  }

  predicate Listed(ids: seq<nat>, subs: set<nat>) {
    && (forall i, j | 0 <= i < j < |ids| :: ids[i] != ids[j])
    && (forall i | 0 <= i < |ids| :: ids[i] in subs)
  }

  lemma SendsFollow<E(!new)>(s: State<E>, e: E, ids: seq<nat>, id: nat, cfg: Config)
    requires Inv(s, cfg) && id in s.subs && id !in ids
    ensures var m := Sending(s, e, ids, cfg);
            Enabled(m, Send(0, id)) && !Panics(m, Send(0, id))
            && Next(m, Send(0, id), cfg) == Sending(s, e, ids + [id], cfg)
  {
    var m := Sending(s, e, ids, cfg);
    hide Sent, Faithful;
    assert (set i | i in ids + [id]) == (set i | i in ids) + {id};
    assert s.subs - (set i | i in ids) - {id} == s.subs - (set i | i in ids + [id]);
    assert Next(m, Send(0, id), cfg).publishing == Sending(s, e, ids + [id], cfg).publishing;
    assert Next(m, Send(0, id), cfg).chans == Sending(s, e, ids + [id], cfg).chans;
  }

  lemma SentToKeepsInv<E(!new)>(s: State<E>, e: E, ids: seq<nat>, cfg: Config)
    requires Inv(s, cfg)
    ensures Inv(SentTo(s, e, ids, cfg), cfg)
  {
    forall id | id in s.chans ensures Faithful(Sent(s.chans[id], e, cfg.capacity), cfg.capacity) {
      SentStaysFaithful(s.chans[id], e, cfg.capacity);
    }
  }

  lemma BeginFollows<E(!new)>(s: State<E>, e: E, cfg: Config)
    requires s.publishing == map[]
    ensures Follow(s, [BeginPublish(0, e)], cfg) == Some(Sending(s, e, [], cfg))
  {
    FollowOne(s, [], s, BeginPublish(0, e), cfg);
    assert [] + [BeginPublish(0, e)] == [BeginPublish(0, e)];
    assert SentTo(s, e, [], cfg).chans == s.chans;
    assert s.subs - (set id: nat | id in []) == s.subs;
  }

  lemma {:induction false} SendingFollows<E(!new)>(s: State<E>, e: E, ids: seq<nat>, cfg: Config)
    requires Inv(s, cfg) && s.publishing == map[] && Listed(ids, s.subs)
    ensures Follow(s, [BeginPublish(0, e)] + Sends(ids), cfg) == Some(Sending(s, e, ids, cfg))
  {
    hide Follow, Sending, SentTo, Inv, Enabled, Panics, Next;
    if ids == [] {
      BeginFollows(s, e, cfg);
      assert [BeginPublish(0, e)] + Sends(ids) == [BeginPublish(0, e)];
    } else {
      var front, last := ids[..|ids| - 1], ids[|ids| - 1];
      SendingFollows(s, e, front, cfg);
      SendsFollow(s, e, front, last, cfg);
      assert ids == front + [last];
      FollowOne(s, [BeginPublish(0, e)] + Sends(front), Sending(s, e, front, cfg), Send(0, last), cfg);
      assert [BeginPublish(0, e)] + Sends(front) + [Send(0, last)] == [BeginPublish(0, e)] + Sends(ids);
    }
  }

  /** A whole publication is a run of steps, whatever order the subscribers come in. */
  lemma PublishFollows<E(!new)>(s: State<E>, e: E, ids: seq<nat>, cfg: Config)
    requires Inv(s, cfg) && s.publishing == map[] && Listed(ids, s.subs) && (forall id | id in s.subs :: id in ids)
    ensures Follow(s, PublishSteps(e, ids), cfg) == Some(SentTo(s, e, ids, cfg))
  {
    var m := Sending(s, e, ids, cfg);
    SendingFollows(s, e, ids, cfg);
    hide Follow;
    assert m.publishing[0].todo == {};
    FollowOne(s, [BeginPublish(0, e)] + Sends(ids), m, EndPublish(0), cfg);
    assert m.publishing - {0} == map[];
  }

  /* ---------- The code, one call at a time ---------- */

  class Bus<E(!new, ==)> {
    const bufSize: nat
    var maxSubscribers: int
    var chans: map<nat, Chan<E>>
    var subs: set<nat>
    var nextId: nat

    ghost function View(): State<E>
      reads this
    {
      State(chans, subs, nextId, map[])
    }

    ghost function Cfg(): Config
      reads this
    {
      Config(bufSize, maxSubscribers)
    }

    ghost predicate Valid()
      reads this
    {
      bufSize > 0 && Inv(View(), Cfg())
    }

    constructor (bufSize: int)
      ensures Valid() && View() == State(map[], {}, 0, map[])
      ensures this.bufSize == if bufSize <= 0 then 32 else bufSize
    {
      this.bufSize := if bufSize <= 0 then DEFAULT_BUFFER else bufSize;
      maxSubscribers := 0;
      chans := map[];
      subs := {};
      nextId := 0;
    }

    method Subscribe() returns (id: nat)
      requires Valid()
      modifies this`chans, this`subs, this`nextId
      ensures Valid() && View() == Next(old(View()), Step.Subscribe, Cfg()) && id == nextId
      ensures id !in old(chans)
      ensures id == old(nextId) + 1
      ensures subs == old(subs) + {id} && chans == old(chans)[id := Chan([], false, [], [])]
    {
      StepKeepsInv(View(), Step.Subscribe, Cfg());
      nextId := nextId + 1;
      id := nextId;
      chans := chans[id := Chan([], false, [], [])];
      subs := subs + {id};
    }

    method TrySubscribe() returns (id: Option<nat>)
      requires Valid()
      modifies this`chans, this`subs, this`nextId
      ensures Valid() && View() == Next(old(View()), Step.TrySubscribe, Cfg())
      ensures id.None? <==> maxSubscribers > 0 && |old(subs)| >= maxSubscribers
      ensures id.Some? ==> id == Some(nextId) && id.value !in old(chans)
      ensures id.Some? && maxSubscribers > 0 ==> |subs| <= maxSubscribers
    {
      if maxSubscribers > 0 && |subs| >= maxSubscribers {
        return None;
      }
      var n := Subscribe();
      return Some(n);
    }

    method Unsubscribe(id: nat)
      requires Valid()
      modifies this`chans, this`subs
      ensures Valid()
      ensures !Panics(old(View()), Step.Unsubscribe(id)) && View() == Next(old(View()), Step.Unsubscribe(id), Cfg())
      ensures chans.Keys == old(chans).Keys && subs == old(subs) - {id}
      ensures forall other | other in chans ::
                chans[other] == if other == id && id in old(subs) then old(chans)[id].(closed := true)
                                else old(chans)[other]
    {
      StepKeepsInv(View(), Step.Unsubscribe(id), Cfg());
      if id in subs {
        chans := chans[id := chans[id].(closed := true)];
        subs := subs - {id};
      }
    }

    /** One send for each subscriber, in whatever order the map yields them. */
    method SendToAll(e: E) returns (ghost ids: seq<nat>)
      requires Valid()
      modifies this`chans
      ensures chans.Keys == old(chans).Keys
      ensures forall id | id in chans ::
                chans[id] == if id in subs then Sent(old(chans)[id], e, bufSize) else old(chans)[id]
      ensures Listed(ids, subs) && forall id | id in subs :: id in ids
    {
      hide Sent, Faithful;
      var rest := subs;
      ids := [];
      while rest != {}
        invariant rest <= subs && chans.Keys == old(chans).Keys
        invariant forall id | id in chans ::
                    chans[id] == if id in subs - rest then Sent(old(chans)[id], e, bufSize) else old(chans)[id]
        invariant Listed(ids, subs) && forall id :: id in ids <==> id in subs - rest
        decreases rest
      {
        var id :| id in rest;
        assert !chans[id].closed;
        chans := chans[id := Sent(chans[id], e, bufSize)];
        rest := rest - {id};
        ids := ids + [id];
      }
    }

    /**
     * Nobody blocks: each subscriber's buffer takes the event exactly if it has room. The call is a run
     * of the steps of a publication, with one send for each subscriber.
     */
    method Publish(e: E) returns (ghost ids: seq<nat>)
      requires Valid()
      modifies this`chans
      ensures Valid() && chans.Keys == old(chans).Keys && subs <= chans.Keys
      ensures forall id | id in subs ::
                && chans[id].buf == (if |old(chans)[id].buf| < bufSize then old(chans)[id].buf + [e]
                                     else old(chans)[id].buf)
                && chans[id].received == old(chans)[id].received && !chans[id].closed
      ensures forall id | id in chans && id !in subs :: chans[id] == old(chans)[id]
      ensures Listed(ids, subs) && forall id | id in subs :: id in ids
      ensures Follow(old(View()), PublishSteps(e, ids), Cfg()) == Some(View())
    {
      hide Follow, PublishSteps, Subsequence;
      ids := SendToAll(e);
      PublishFollows(old(View()), e, ids, Cfg());
      SentToKeepsInv(old(View()), e, ids, Cfg());
      assert View().chans == SentTo(old(View()), e, ids, Cfg()).chans;
    }

    /** A subscriber's read of its own channel. */
    method Receive(id: nat) returns (e: Option<E>)
      requires Valid() && id in chans
      modifies this`chans
      ensures Valid()
      ensures e.None? <==> old(chans)[id].buf == []
      ensures e.None? ==> chans == old(chans)
      ensures e.Some? ==> e.value == old(chans)[id].buf[0] && View() == Next(old(View()), Step.Receive(id), Cfg())
      ensures e.Some? ==>
                && chans.Keys == old(chans).Keys && [e.value] + chans[id].buf == old(chans)[id].buf
                && chans[id].received == old(chans)[id].received + [e.value]
                && chans[id].closed == old(chans)[id].closed
                && forall other | other in chans && other != id :: chans[other] == old(chans)[other]
    {
      if chans[id].buf == [] {
        return None;
      }
      StepKeepsInv(View(), Step.Receive(id), Cfg());
      e := Some(chans[id].buf[0]);
      chans := chans[id := Taken(chans[id])];
    }

    method SubscriberCount() returns (n: nat)
      requires Valid()
      ensures n == |subs| && n == |set id | id in chans && !chans[id].closed|
    {
      n := |subs|;
      assert subs == set id | id in chans && !chans[id].closed;
    }
  }
}
