/** Message generation: the handlers in turn, each generating only when its
    message is due, compared with generating every message on every tick. */
module LazyGeneration {
  import opened Scheduler

  /** What happens to one bus. `made` is what each handler would generate at that
      moment; a handler that is skipped leaves its message unused. */
  datatype Event =
    | Tick(now: nat, made: seq<BusMessage>)
    | Immediate(id: nat, now: nat, made: seq<BusMessage>)
    | Add(message: BusMessage, now: nat)
    | SendStored(id: nat, now: nat)

  /** What an event puts on the bus: a pass over the entries, or messages in order. */
  datatype Output = Pass(sends: map<nat, BusMessage>) | Ordered(messages: seq<BusMessage>)

  /** Handler j makes messages with its own identifier. */
  predicate MadeBy(ids: seq<nat>, made: seq<BusMessage>) {
    |made| == |ids| && forall j | 0 <= j < |ids| :: made[j].id == ids[j]
  }

  /** The schedule once the first n handlers have had their turn. */
  function Generated(s: Schedule, ids: seq<nat>, made: seq<BusMessage>, now: nat, lazy: bool, n: nat): Schedule
    requires MadeBy(ids, made) && n <= |ids|
  {
    if n == 0 then s else
    var before := Generated(s, ids, made, now, lazy, n - 1);
    if lazy && !ShouldGenerate(before, ids[n - 1], now) then before else AddOrUpdated(before, made[n - 1], now)
  }

  /** An immediate send: the handlers of that identifier generate, and each time the message goes out. */
  function Immediately(s: Schedule, id: nat, ids: seq<nat>, made: seq<BusMessage>, now: nat, n: nat)
    : (Schedule, seq<BusMessage>)
    requires MadeBy(ids, made) && n <= |ids|
  {
    if n == 0 then (s, []) else
    var (before, sent) := Immediately(s, id, ids, made, now, n - 1);
    if ids[n - 1] != id then (before, sent) else
    var added := AddOrUpdated(before, made[n - 1], now);
    (SentImmediately(added, id, now), sent + ImmediateOutput(added, id))
  }

  method ProcessGenerators(scheduler: MessageScheduler, ids: seq<nat>, made: seq<BusMessage>, now: nat)
    requires MadeBy(ids, made)
    modifies scheduler
    ensures scheduler.scheduledMessages == Generated(old(scheduler.scheduledMessages), ids, made, now, true, |ids|)
  {
    hide AddOrUpdated, ShouldGenerate;
    for j := 0 to |ids|
      invariant scheduler.scheduledMessages == Generated(old(scheduler.scheduledMessages), ids, made, now, true, j)
    {
      var shouldGenerate := scheduler.ShouldGenerateMessage(ids[j], now);
      if shouldGenerate {
        scheduler.AddOrUpdateMessage(made[j], now);
      }
    }
  }

  method SendImmediateMessage(scheduler: MessageScheduler, transportLayer: TransportLayer, id: nat, ids: seq<nat>,
                              made: seq<BusMessage>, now: nat)
    requires MadeBy(ids, made)
    modifies scheduler, transportLayer
    ensures var (s, sent) := Immediately(old(scheduler.scheduledMessages), id, ids, made, now, |ids|);
            scheduler.scheduledMessages == s && transportLayer.sent == old(transportLayer.sent) + sent
  {
    hide AddOrUpdated, SentImmediately, ImmediateOutput;
    for j := 0 to |ids|
      invariant var (s, sent) := Immediately(old(scheduler.scheduledMessages), id, ids, made, now, j);
                scheduler.scheduledMessages == s && transportLayer.sent == old(transportLayer.sent) + sent
    {
      if ids[j] == id {
        scheduler.AddOrUpdateMessage(made[j], now);
        scheduler.SendImmedateMessage(id, now, transportLayer);
      }
    }
  }

  // ---- Runs ----

  /** An event of a bus with these handlers. A message of theirs is only sent
      immediately after being generated again, and the 16 bits of its identifier
      that an immediate send looks at do not name another handler's message. */
  predicate Proper(ids: seq<nat>, ev: Event) {
    match ev
    case Tick(now, made) => MadeBy(ids, made)
    case Immediate(id, now, made) => MadeBy(ids, made) && NamesItself(ids, id)
    case Add(m, now) => true
    case SendStored(id, now) => ShortId(id) !in ids
  }

  predicate NamesItself(ids: seq<nat>, id: nat) {
    id in ids && ShortId(id) in ids ==> ShortId(id) == id
  }

  function Next(s: Schedule, ids: seq<nat>, ev: Event, lazy: bool): (Schedule, Output)
    requires Proper(ids, ev)
  {
    match ev
    case Tick(now, made) =>
      var ready := Generated(s, ids, made, now, lazy, |ids|);
      (Updated(ready, now), Pass(Sends(ready, now)))
    case Immediate(id, now, made) =>
      var (s', sent) := Immediately(s, id, ids, made, now, |ids|);
      (s', Ordered(sent))
    case Add(m, now) => (AddOrUpdated(s, m, now), Ordered([]))
    case SendStored(id, now) => (SentImmediately(s, id, now), Ordered(ImmediateOutput(s, id)))
  }

  predicate ProperRun(ids: seq<nat>, evs: seq<Event>) {
    forall i | 0 <= i < |evs| :: Proper(ids, evs[i])
  }

  function After(s: Schedule, ids: seq<nat>, evs: seq<Event>, lazy: bool, n: nat): Schedule
    requires ProperRun(ids, evs) && n <= |evs|
  {
    if n == 0 then s else Next(After(s, ids, evs, lazy, n - 1), ids, evs[n - 1], lazy).0
  }

  function OutputOf(s: Schedule, ids: seq<nat>, evs: seq<Event>, lazy: bool, n: nat): Output
    requires ProperRun(ids, evs) && n < |evs|
  {
    Next(After(s, ids, evs, lazy, n), ids, evs[n], lazy).1
  }

  // ---- Lazy and eager generation agree ----

  predicate SameTimes(l: Schedule, e: Schedule) {
    && l.Keys == e.Keys
    && forall id | id in l :: l[id].nextDueTime == e[id].nextDueTime && l[id].lastSentTime == e[id].lastSentTime
  }

  /** The same entries at the same times; only handlers' messages may be older on the lazy side. */
  predicate Agree(l: Schedule, e: Schedule, ids: seq<nat>) {
    SameTimes(l, e) && forall id | id in l && id !in ids :: l[id] == e[id]
  }

  /** Besides, everything the first n handlers are responsible for is up to date if it is due. */
  predicate AgreeOnDue(l: Schedule, e: Schedule, ids: seq<nat>, now: nat, n: nat)
    requires n <= |ids|
  {
    Agree(l, e, ids) && forall j | 0 <= j < n && ids[j] in l && Due(l[ids[j]], now) :: l[ids[j]] == e[ids[j]]
  }

  lemma {:induction false} GenerationAgrees(l: Schedule, e: Schedule, ids: seq<nat>, made: seq<BusMessage>, now: nat,
                                            n: nat)
    requires Agree(l, e, ids) && MadeBy(ids, made) && n <= |ids|
    ensures AgreeOnDue(Generated(l, ids, made, now, true, n), Generated(e, ids, made, now, false, n), ids, now, n)
  {
    if n > 0 {
      GenerationAgrees(l, e, ids, made, now, n - 1);
      var l', e' := Generated(l, ids, made, now, true, n - 1), Generated(e, ids, made, now, false, n - 1);
      OneGeneratorAgrees(l', e', ids, made[n - 1], now, n);
    }
  }

  lemma OneGeneratorAgrees(l: Schedule, e: Schedule, ids: seq<nat>, m: BusMessage, now: nat, n: nat)
    requires 1 <= n <= |ids| && m.id == ids[n - 1] && AgreeOnDue(l, e, ids, now, n - 1)
    ensures AgreeOnDue(if ShouldGenerate(l, m.id, now) then AddOrUpdated(l, m, now) else l,
                       AddOrUpdated(e, m, now), ids, now, n)
  {
  }

  lemma UpdateAgrees(l: Schedule, e: Schedule, ids: seq<nat>, now: nat)
    requires AgreeOnDue(l, e, ids, now, |ids|)
    ensures Agree(Updated(l, now), Updated(e, now), ids) && Sends(l, now) == Sends(e, now)
  {
    forall id | id in l && Due(l[id], now) ensures l[id] == e[id] {
      if id in ids {
        var j :| 0 <= j < |ids| && ids[j] == id;
      }
    }
  }

  lemma {:induction false} ImmediateAgrees(l: Schedule, e: Schedule, id: nat, ids: seq<nat>, made: seq<BusMessage>,
                                           now: nat, n: nat)
    requires Agree(l, e, ids) && MadeBy(ids, made) && n <= |ids| && NamesItself(ids, id)
    ensures Agree(Immediately(l, id, ids, made, now, n).0, Immediately(e, id, ids, made, now, n).0, ids)
    ensures Immediately(l, id, ids, made, now, n).1 == Immediately(e, id, ids, made, now, n).1
  {
    if n > 0 {
      ImmediateAgrees(l, e, id, ids, made, now, n - 1);
    }
  }

  lemma NextAgrees(l: Schedule, e: Schedule, ids: seq<nat>, ev: Event)
    requires Agree(l, e, ids) && Proper(ids, ev)
    ensures Agree(Next(l, ids, ev, true).0, Next(e, ids, ev, false).0, ids)
    ensures Next(l, ids, ev, true).1 == Next(e, ids, ev, false).1
  {
    match ev
    case Tick(now, made) =>
      GenerationAgrees(l, e, ids, made, now, |ids|);
      UpdateAgrees(Generated(l, ids, made, now, true, |ids|), Generated(e, ids, made, now, false, |ids|), ids, now);
    case Immediate(id, now, made) => ImmediateAgrees(l, e, id, ids, made, now, |ids|);
    case _ =>
  }

  /** Generating only what is due is invisible on the bus: in every run of ticks,
      immediate sends and messages added from elsewhere, each event sends exactly
      what it would send if every handler generated on every tick. */
  lemma {:induction false} LazyIsInvisible(s: Schedule, ids: seq<nat>, evs: seq<Event>, n: nat)
    requires ProperRun(ids, evs) && n <= |evs|
    ensures Agree(After(s, ids, evs, true, n), After(s, ids, evs, false, n), ids)
    ensures n < |evs| ==> OutputOf(s, ids, evs, true, n) == OutputOf(s, ids, evs, false, n)
  {
    if n > 0 {
      LazyIsInvisible(s, ids, evs, n - 1);
      NextAgrees(After(s, ids, evs, true, n - 1), After(s, ids, evs, false, n - 1), ids, evs[n - 1]);
    }
    if n < |evs| {
      NextAgrees(After(s, ids, evs, true, n), After(s, ids, evs, false, n), ids, evs[n]);
    }
  }

  // ---- Freshness ----

  /** The same message, field by field. The length is cut to the 32 bytes of the data
      field when a known message is replaced, and kept when the message is new. */
  predicate SameContent(m: BusMessage, x: BusMessage, replaced: bool) {
    && m.id == x.id && m.data == x.data && m.periodicityMs == x.periodicityMs && m.offsetMs == x.offsetMs
    && m.isActive == x.isActive && m.header == x.header
    && (m.dataLength == (if x.dataLength > 32 then 32 else x.dataLength) || (!replaced && m.dataLength == x.dataLength))
  }

  /** `m` is what one of the handlers for this identifier made just now. */
  predicate Fresh(m: BusMessage, id: nat, ids: seq<nat>, made: seq<BusMessage>, n: nat, known: bool)
    requires MadeBy(ids, made) && n <= |ids|
  {
    exists j :: 0 <= j < n && ids[j] == id && SameContent(m, made[j], known)
  }

  lemma AddedContent(s: Schedule, m: BusMessage, now: nat)
    ensures var s' := AddOrUpdated(s, m, now);
            m.id in s' && SameContent(s'[m.id].message, m, m.id in s)
  {
  }

  lemma {:induction false} GeneratedIsFresh(s: Schedule, ids: seq<nat>, made: seq<BusMessage>, now: nat, n: nat,
                                            id: nat)
    requires MadeBy(ids, made) && n <= |ids|
    ensures var g := Generated(s, ids, made, now, true, n);
            && (id in s ==> id in g && g[id].nextDueTime == s[id].nextDueTime)
            && (id in ids[..n] ==> id in g && (Due(g[id], now) ==> Fresh(g[id].message, id, ids, made, n, id in s)))
            && (id !in ids[..n] ==> (id in g <==> id in s) && (id in s ==> g[id] == s[id]))
  {
    hide SameContent;
    if n > 0 {
      GeneratedIsFresh(s, ids, made, now, n - 1, id);
      var before := Generated(s, ids, made, now, true, n - 1);
      assert ids[..n] == ids[..n - 1] + [ids[n - 1]];
      AddedContent(before, made[n - 1], now);
      if id in ids[..n - 1] && Due(before[id], now) {
        var j :| 0 <= j < n - 1 && ids[j] == id && SameContent(before[id].message, made[j], id in s);
        assert Fresh(before[id].message, id, ids, made, n, id in s);
      }
      if id == ids[n - 1] {
        ReplacedOrNew(AddOrUpdated(before, made[n - 1], now)[id].message, made[n - 1], id in before, id in s);
      }
    }
  }

  lemma ReplacedOrNew(m: BusMessage, x: BusMessage, replaced: bool, known: bool)
    requires SameContent(m, x, replaced) && (known ==> replaced)
    ensures SameContent(m, x, known)
  {
  }

  /** A handler's message that a tick sends was generated in that very tick, is
      active, and goes out with every field as it was generated. */
  lemma SentIsFresh(s: Schedule, ids: seq<nat>, evs: seq<Event>, n: nat, id: nat)
    requires ProperRun(ids, evs) && n < |evs| && evs[n].Tick? && id in ids
    requires id in OutputOf(s, ids, evs, true, n).sends
    ensures OutputOf(s, ids, evs, true, n).sends[id].isActive
    ensures Fresh(OutputOf(s, ids, evs, true, n).sends[id], id, ids, evs[n].made, |ids|,
                  id in After(s, ids, evs, true, n))
  {
    hide SameContent;
    GeneratedIsFresh(After(s, ids, evs, true, n), ids, evs[n].made, evs[n].now, |ids|, id);
    assert ids[..|ids|] == ids;
  }

  // ---- Messages of nobody ----

  /** The latest message added for an identifier among the first n events, if any. */
  function LatestAdded(evs: seq<Event>, id: nat, n: nat): (i: int)
    requires n <= |evs|
    ensures -1 <= i < n && (i >= 0 ==> evs[i].Add? && evs[i].message.id == id)
  {
    if n == 0 then -1
    else if evs[n - 1].Add? && evs[n - 1].message.id == id then n - 1
    else LatestAdded(evs, id, n - 1)
  }

  lemma {:induction false} OthersKeepContent(s: Schedule, target: nat, ids: seq<nat>, made: seq<BusMessage>, now: nat,
                                             lazy: bool, n: nat, id: nat)
    requires MadeBy(ids, made) && n <= |ids| && id !in ids
    ensures var g := Generated(s, ids, made, now, lazy, n);
            (id in g <==> id in s) && (id in s ==> g[id] == s[id])
    ensures var g := Immediately(s, target, ids, made, now, n).0;
            (id in g <==> id in s) && (id in s ==> g[id].message == s[id].message)
  {
    if n > 0 {
      OthersKeepContent(s, target, ids, made, now, lazy, n - 1, id);
    }
  }

  /** Without a handler, what is stored for an identifier is the latest message added for it. */
  lemma {:induction false} StoredIsLatestAdded(ids: seq<nat>, evs: seq<Event>, lazy: bool, id: nat, n: nat)
    requires ProperRun(ids, evs) && n <= |evs| && id !in ids
    ensures var s, i := After(map[], ids, evs, lazy, n), LatestAdded(evs, id, n);
            (id in s <==> i >= 0) && (id in s ==> SameContent(s[id].message, evs[i].message, false))
  {
    if n > 0 {
      StoredIsLatestAdded(ids, evs, lazy, id, n - 1);
      var before := After(map[], ids, evs, lazy, n - 1);
      match evs[n - 1]
      case Tick(now, made) => OthersKeepContent(before, 0, ids, made, now, lazy, |ids|, id);
      case Immediate(target, now, made) => OthersKeepContent(before, target, ids, made, now, lazy, |ids|, id);
      case Add(m, now) =>
        AddedContent(before, m, now);
        if m.id == id {
          ReplacedOrNew(AddOrUpdated(before, m, now)[id].message, m, id in before, false);
        }
      case SendStored(_, _) =>
    }
  }

  /** What a tick sends is active and is what is stored. */
  lemma SentIsStored(s: Schedule, ids: seq<nat>, evs: seq<Event>, lazy: bool, n: nat, id: nat)
    requires ProperRun(ids, evs) && n < |evs| && evs[n].Tick? && id in OutputOf(s, ids, evs, lazy, n).sends
    ensures var m := OutputOf(s, ids, evs, lazy, n).sends[id];
            && m.isActive && id in After(s, ids, evs, lazy, n + 1)
            && m == After(s, ids, evs, lazy, n + 1)[id].message
  {
  }

  /** Sending a stored handler message without generating it again does show the
      difference: the content may date from the previous due time. */
  lemma StoredSendIsStale(id: nat)
    requires id < 0x10000
    ensures var older := BusMessage(id, [], 0, 100, 0, true, 1);
            var newer := older.(header := 2);
            var evs := [Tick(0, [older]), Tick(50, [newer])];
            && ProperRun([id], evs) && Proper([], SendStored(id, 60))
            && Next(After(map[], [id], evs, true, 2), [], SendStored(id, 60), true).1 == Ordered([older])
            && Next(After(map[], [id], evs, false, 2), [], SendStored(id, 60), false).1 == Ordered([newer])
  {
    var older := BusMessage(id, [], 0, 100, 0, true, 1);
    var newer := older.(header := 2);
    var evs := [Tick(0, [older]), Tick(50, [newer])];
    assert After(map[], [id], evs, true, 0) == After(map[], [id], evs, false, 0) == map[];
    assert Generated(map[], [id], [older], 0, true, 0) == Generated(map[], [id], [older], 0, false, 0) == map[];
    var first: Schedule := map[id := Entry(older, 100, 100, 0)];
    assert After(map[], [id], evs, true, 1) == After(map[], [id], evs, false, 1) == first;
    assert Generated(first, [id], [newer], 50, true, 0) == first == Generated(first, [id], [newer], 50, false, 0);
    assert Generated(first, [id], [newer], 50, true, 1) == first;
    assert Generated(first, [id], [newer], 50, false, 1) == first[id := Entry(newer, 100, 100, 0)];
  }
}
