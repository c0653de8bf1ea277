/** When an entry with a constant period is sent: the due times keep to one grid
    over any run, whatever else happens on the bus. */
module SendSlots {
  import opened LazyGeneration
  import opened Scheduler

  /** Every message this event brings for `id` is active and has period `period`. */
  predicate SteadyMessage(m: BusMessage, id: nat, period: nat) {
    m.id == id ==> m.isActive && m.periodicityMs == period
  }

  predicate SteadyEvent(ev: Event, id: nat, period: nat) {
    match ev
    case Tick(now, made) => forall j | 0 <= j < |made| :: SteadyMessage(made[j], id, period)
    case Immediate(_, now, made) => forall j | 0 <= j < |made| :: SteadyMessage(made[j], id, period)
    case Add(m, now) => SteadyMessage(m, id, period)
    case SendStored(_, now) => true
  }

  predicate SteadyEntry(s: Schedule, id: nat, period: nat, due: nat) {
    id in s && s[id].message.isActive && s[id].periodicityMs == period && s[id].nextDueTime == due
  }

  /** A run in which `id` is steady and the clock of the ticks does not go back. */
  predicate SteadyRun(ids: seq<nat>, evs: seq<Event>, id: nat, period: nat) {
    && ProperRun(ids, evs)
    && (forall i | 0 <= i < |evs| :: SteadyEvent(evs[i], id, period))
    && (forall i, j | 0 <= i < j < |evs| && evs[i].Tick? && evs[j].Tick? :: evs[i].now <= evs[j].now)
  }

  /** The time of the latest tick among the first n events, -1 when there is none. */
  function LastTick(evs: seq<Event>, n: nat): (t: int)
    requires n <= |evs|
    ensures t >= -1
  {
    if n == 0 then -1 else if evs[n - 1].Tick? then evs[n - 1].now else LastTick(evs, n - 1)
  }

  /** The slot of a time on the grid that starts at `first`. */
  function SlotOf(first: nat, period: nat, t: int): nat
    requires period > 0 && t >= first
  {
    (t - first) / period
  }

  /** The due time after a latest tick at `last`: the first grid point after it. */
  function DueAfter(first: nat, period: nat, last: int): nat
    requires period > 0
  {
    if last < first then first else first + (SlotOf(first, period, last) + 1) * period
  }

  predicate SentAt(s: Schedule, ids: seq<nat>, evs: seq<Event>, lazy: bool, id: nat, n: nat)
    requires ProperRun(ids, evs) && n < |evs|
  {
    evs[n].Tick? && id in OutputOf(s, ids, evs, lazy, n).sends
  }

  // ---- Arithmetic of the grid ----

  lemma QuotientAtLeast(x: nat, q: nat, p: nat)
    requires p > 0
    ensures x / p >= q <==> x >= q * p
  {
    var d, r := x / p - q, x % p;
    assert x == (x / p) * p + r;
    assert x == q * p + d * p + r by {
      assert (x / p) * p == (q + d) * p;
    }
    if d >= 0 {
      assert d * p >= 0;
    } else {
      assert d * p <= 0 - p;
    }
  }

  lemma QuotientShift(x: nat, q: nat, p: nat)
    requires p > 0 && x >= q * p
    ensures (x - q * p) / p == x / p - q
  {
    QuotientAtLeast(x, q, p);
    var k := x / p - q;
    assert k * p == (x / p) * p - q * p;
    QuotientAtLeast(x - q * p, k, p);
    QuotientAtLeast(x - q * p, k + 1, p);
    assert (k + 1) * p == k * p + p;
  }

  /** Passing at `now` moves the due time to the first grid point after `now`, never off the grid. */
  lemma DueStaysOnGrid(first: nat, period: nat, last: int, now: nat)
    requires period > 0 && last <= now
    ensures var due := DueAfter(first, period, last);
            && (now >= due <==>
                  now >= first && (last < first || SlotOf(first, period, last) < SlotOf(first, period, now)))
            && (now >= due ==> NextDue(due, period, now) == DueAfter(first, period, now))
            && (now < due ==> DueAfter(first, period, now) == due)
  {
    var due := DueAfter(first, period, last);
    if now >= first {
      var q := if last < first then 0 else SlotOf(first, period, last) + 1;
      assert due == first + q * period;
      QuotientAtLeast(now - first, q, period);
      if now >= due {
        QuotientShift(now - first, q, period);
        var k := SlotOf(first, period, now);
        assert NextDue(due, period, now) == due + (k - q + 1) * period;
        assert (k - q + 1) * period == (k + 1) * period - q * period;
      } else {
        SlotsOrdered(first, period, last, now);
      }
    }
  }

  lemma SlotsOrdered(first: nat, period: nat, t: int, u: int)
    requires period > 0 && first <= t <= u
    ensures SlotOf(first, period, t) <= SlotOf(first, period, u)
  {
    var q := SlotOf(first, period, t);
    QuotientAtLeast(t - first, q, period);
    QuotientAtLeast(u - first, q, period);
  }

  // ---- Nothing but a pass moves a due time ----

  lemma {:induction false} GenerationKeepsDue(s: Schedule, ids: seq<nat>, made: seq<BusMessage>, now: nat, lazy: bool,
                                              n: nat, id: nat, period: nat, due: nat)
    requires MadeBy(ids, made) && n <= |ids| && SteadyEntry(s, id, period, due)
    requires forall j | 0 <= j < |made| :: SteadyMessage(made[j], id, period)
    ensures SteadyEntry(Generated(s, ids, made, now, lazy, n), id, period, due)
  {
    if n > 0 {
      GenerationKeepsDue(s, ids, made, now, lazy, n - 1, id, period, due);
    }
  }

  lemma {:induction false} ImmediateKeepsDue(s: Schedule, target: nat, ids: seq<nat>, made: seq<BusMessage>, now: nat,
                                             n: nat, id: nat, period: nat, due: nat)
    requires MadeBy(ids, made) && n <= |ids| && SteadyEntry(s, id, period, due)
    requires forall j | 0 <= j < |made| :: SteadyMessage(made[j], id, period)
    ensures SteadyEntry(Immediately(s, target, ids, made, now, n).0, id, period, due)
  {
    if n > 0 {
      ImmediateKeepsDue(s, target, ids, made, now, n - 1, id, period, due);
    }
  }

  lemma NextKeepsGrid(s: Schedule, ids: seq<nat>, ev: Event, lazy: bool, id: nat, period: nat, first: nat, last: int)
    requires Proper(ids, ev) && SteadyEvent(ev, id, period) && period > 0 && (ev.Tick? ==> last <= ev.now)
    requires SteadyEntry(s, id, period, DueAfter(first, period, last))
    ensures var last' := if ev.Tick? then ev.now else last;
            SteadyEntry(Next(s, ids, ev, lazy).0, id, period, DueAfter(first, period, last'))
    ensures ev.Tick? ==>
              (id in Next(s, ids, ev, lazy).1.sends
               <==> ev.now >= first && (last < first || SlotOf(first, period, last) < SlotOf(first, period, ev.now)))
  {
    var due := DueAfter(first, period, last);
    match ev
    case Tick(now, made) =>
      GenerationKeepsDue(s, ids, made, now, lazy, |ids|, id, period, due);
      DueStaysOnGrid(first, period, last, now);
      hide DueAfter, SlotOf, NextDue;
    case Immediate(target, now, made) => ImmediateKeepsDue(s, target, ids, made, now, |ids|, id, period, due);
    case _ =>
  }

  /** No drift: in every run the due time is the first point after the latest tick
      on the grid first, first + period, first + 2 * period, ... */
  lemma {:induction false} DueKeepsToGrid(s: Schedule, ids: seq<nat>, evs: seq<Event>, lazy: bool, id: nat, period: nat,
                                          first: nat, n: nat)
    requires SteadyRun(ids, evs, id, period) && period > 0 && SteadyEntry(s, id, period, first) && n <= |evs|
    ensures SteadyEntry(After(s, ids, evs, lazy, n), id, period, DueAfter(first, period, LastTick(evs, n)))
  {
    if n > 0 {
      DueKeepsToGrid(s, ids, evs, lazy, id, period, first, n - 1);
      LastTickIsLatest(evs, n - 1, n - 1);
      NextKeepsGrid(After(s, ids, evs, lazy, n - 1), ids, evs[n - 1], lazy, id, period, first, LastTick(evs, n - 1));
    }
  }

  lemma {:induction false} LastTickIsLatest(evs: seq<Event>, n: nat, m: nat)
    requires n <= m <= |evs|
    requires forall i, j | 0 <= i < j < |evs| && evs[i].Tick? && evs[j].Tick? :: evs[i].now <= evs[j].now
    ensures forall i | 0 <= i < n && evs[i].Tick? :: evs[i].now <= LastTick(evs, n)
    ensures LastTick(evs, n) >= 0 ==> exists i :: 0 <= i < n && evs[i].Tick? && evs[i].now == LastTick(evs, n)
    ensures m < |evs| && evs[m].Tick? ==> LastTick(evs, n) <= evs[m].now
  {
    if n > 0 {
      LastTickIsLatest(evs, n - 1, m);
    }
  }

  /** A tick sends the message exactly when its slot has begun and no earlier tick fell into the same slot. */
  lemma SentOncePerSlot(s: Schedule, ids: seq<nat>, evs: seq<Event>, lazy: bool, id: nat, period: nat, first: nat,
                        n: nat)
    requires SteadyRun(ids, evs, id, period) && period > 0 && SteadyEntry(s, id, period, first)
    requires n < |evs| && evs[n].Tick?
    ensures SentAt(s, ids, evs, lazy, id, n) <==>
              && evs[n].now >= first
              && forall i | 0 <= i < n && evs[i].Tick? && evs[i].now >= first ::
                   SlotOf(first, period, evs[i].now) != SlotOf(first, period, evs[n].now)
  {
    var last := LastTick(evs, n);
    SentBySlot(s, ids, evs, lazy, id, period, first, n);
    LastTickIsLatest(evs, n, n);
    hide SlotOf, SentAt;
    if evs[n].now >= first && last >= first {
      SlotsOrdered(first, period, last, evs[n].now);
      forall i | 0 <= i < n && evs[i].Tick? && evs[i].now >= first
        ensures SlotOf(first, period, evs[i].now) <= SlotOf(first, period, last)
      {
        SlotsOrdered(first, period, evs[i].now, last);
      }
    }
  }

  /** How many of the first n events send the message at a time from a to b. */
  function SendsBetween(s: Schedule, ids: seq<nat>, evs: seq<Event>, lazy: bool, id: nat, n: nat, a: nat, b: nat): nat
    requires ProperRun(ids, evs) && n <= |evs|
  {
    if n == 0 then 0
    else SendsBetween(s, ids, evs, lazy, id, n - 1, a, b)
         + if SentAt(s, ids, evs, lazy, id, n - 1) && a <= evs[n - 1].now <= b then 1 else 0
  }

  // Slots from a up to b that have been reached when the latest tick was at `last`.
  function SlotsReached(first: nat, period: nat, a: nat, b: nat, last: int): int
    requires period > 0 && first <= a <= b
  {
    if last < a then 0
    else SlotOf(first, period, if last < b then last else b) - SlotOf(first, period, a) + 1
  }

  lemma OneMoreSlot(first: nat, period: nat, a: nat, b: nat, last: int, now: nat)
    requires period > 0 && first <= a <= b && last <= now
    ensures var sent := a <= now <= b && (last < first || SlotOf(first, period, last) < SlotOf(first, period, now));
            SlotsReached(first, period, a, b, last) + (if sent then 1 else 0) <= SlotsReached(first, period, a, b, now)
  {
    hide SlotOf;
    if now >= a {
      var upTo := if now < b then now else b;
      SlotsOrdered(first, period, a, upTo);
      if last >= first {
        SlotsOrdered(first, period, if last < b then last else b, upTo);
        if last < a && now <= b {
          SlotsOrdered(first, period, last, a);
        }
      }
    }
  }

  /** Never more sends from a to b than slots touched. */
  lemma {:induction false} SendsBounded(s: Schedule, ids: seq<nat>, evs: seq<Event>, lazy: bool, id: nat, period: nat,
                                        first: nat, n: nat, a: nat, b: nat)
    requires SteadyRun(ids, evs, id, period) && period > 0 && SteadyEntry(s, id, period, first)
    requires n <= |evs| && first <= a <= b
    ensures SendsBetween(s, ids, evs, lazy, id, n, a, b) <= SlotsReached(first, period, a, b, LastTick(evs, n))
    ensures SendsBetween(s, ids, evs, lazy, id, n, a, b) <= SlotOf(first, period, b) - SlotOf(first, period, a) + 1
  {
    ReachedAtMost(first, period, a, b, LastTick(evs, n));
    if n > 0 {
      SendsBounded(s, ids, evs, lazy, id, period, first, n - 1, a, b);
      SentBySlot(s, ids, evs, lazy, id, period, first, n - 1);
      hide SlotOf, SlotsReached, SentAt, SteadyRun, SteadyEntry;
      if evs[n - 1].Tick? {
        OneMoreSlot(first, period, a, b, LastTick(evs, n - 1), evs[n - 1].now);
      }
    }
  }

  lemma ReachedAtMost(first: nat, period: nat, a: nat, b: nat, last: int)
    requires period > 0 && first <= a <= b
    ensures SlotsReached(first, period, a, b, last) <= SlotOf(first, period, b) - SlotOf(first, period, a) + 1
  {
    hide SlotOf;
    SlotsOrdered(first, period, a, b);
    if last >= a {
      SlotsOrdered(first, period, if last < b then last else b, b);
    }
  }

  lemma SentBySlot(s: Schedule, ids: seq<nat>, evs: seq<Event>, lazy: bool, id: nat, period: nat, first: nat, n: nat)
    requires SteadyRun(ids, evs, id, period) && period > 0 && SteadyEntry(s, id, period, first) && n < |evs|
    ensures evs[n].Tick? ==> LastTick(evs, n) <= evs[n].now
    ensures SentAt(s, ids, evs, lazy, id, n) <==>
              && evs[n].Tick? && evs[n].now >= first
              && (LastTick(evs, n) < first
                  || SlotOf(first, period, LastTick(evs, n)) < SlotOf(first, period, evs[n].now))
  {
    DueKeepsToGrid(s, ids, evs, lazy, id, period, first, n);
    LastTickIsLatest(evs, n, n);
    if evs[n].Tick? {
      NextKeepsGrid(After(s, ids, evs, lazy, n), ids, evs[n], lazy, id, period, first, LastTick(evs, n));
    }
  }

  // ---- Without a period ----

  /** Without a period the due time follows the latest tick. */
  lemma {:induction false} DueWithoutPeriod(s: Schedule, ids: seq<nat>, evs: seq<Event>, lazy: bool, id: nat,
                                            first: nat, n: nat)
    requires SteadyRun(ids, evs, id, 0) && SteadyEntry(s, id, 0, first) && n <= |evs|
    ensures var last := LastTick(evs, n);
            SteadyEntry(After(s, ids, evs, lazy, n), id, 0, if last < first then first else last)
  {
    if n > 0 {
      DueWithoutPeriod(s, ids, evs, lazy, id, first, n - 1);
      LastTickIsLatest(evs, n - 1, n - 1);
      var last := LastTick(evs, n - 1);
      NextWithoutPeriod(After(s, ids, evs, lazy, n - 1), ids, evs[n - 1], lazy, id,
                        if last < first then first else last);
    }
  }

  lemma NextWithoutPeriod(s: Schedule, ids: seq<nat>, ev: Event, lazy: bool, id: nat, due: nat)
    requires Proper(ids, ev) && SteadyEvent(ev, id, 0) && SteadyEntry(s, id, 0, due)
    ensures SteadyEntry(Next(s, ids, ev, lazy).0, id, 0, if ev.Tick? && ev.now >= due then ev.now else due)
    ensures ev.Tick? ==> (id in Next(s, ids, ev, lazy).1.sends <==> ev.now >= due)
  {
    match ev
    case Tick(now, made) => GenerationKeepsDue(s, ids, made, now, lazy, |ids|, id, 0, due);
    case Immediate(target, now, made) => ImmediateKeepsDue(s, target, ids, made, now, |ids|, id, 0, due);
    case _ =>
  }

  /** Such a message goes out on every tick from its first due time on. */
  lemma SentOnEveryTick(s: Schedule, ids: seq<nat>, evs: seq<Event>, lazy: bool, id: nat, first: nat, n: nat)
    requires SteadyRun(ids, evs, id, 0) && SteadyEntry(s, id, 0, first) && n < |evs| && evs[n].Tick?
    ensures SentAt(s, ids, evs, lazy, id, n) <==> evs[n].now >= first
  {
    var last := LastTick(evs, n);
    DueWithoutPeriod(s, ids, evs, lazy, id, first, n);
    LastTickIsLatest(evs, n, n);
    NextWithoutPeriod(After(s, ids, evs, lazy, n), ids, evs[n], lazy, id, if last < first then first else last);
  }

  // ---- From an empty schedule ----

  /** The event brings a message for `id`: a handler's turn, or a message added. */
  predicate Brings(ids: seq<nat>, ev: Event, id: nat) {
    match ev
    case Tick(_, _) => id in ids
    case Immediate(target, _, _) => target == id && id in ids
    case Add(m, _) => m.id == id
    case SendStored(_, _) => false
  }

  predicate OffsetMessage(m: BusMessage, id: nat, offset: nat) {
    m.id == id ==> m.offsetMs == offset
  }

  predicate OffsetEvent(ev: Event, id: nat, offset: nat) {
    match ev
    case Tick(_, made) => forall j | 0 <= j < |made| :: OffsetMessage(made[j], id, offset)
    case Immediate(_, _, made) => forall j | 0 <= j < |made| :: OffsetMessage(made[j], id, offset)
    case Add(m, _) => OffsetMessage(m, id, offset)
    case SendStored(_, _) => true
  }

  lemma {:induction false} GenerationEnters(s: Schedule, ids: seq<nat>, made: seq<BusMessage>, now: nat, lazy: bool,
                                            n: nat, id: nat, period: nat, offset: nat)
    requires MadeBy(ids, made) && n <= |ids| && id !in s
    requires forall j | 0 <= j < |made| :: SteadyMessage(made[j], id, period) && OffsetMessage(made[j], id, offset)
    ensures var g := Generated(s, ids, made, now, lazy, n);
            if id in ids[..n] then SteadyEntry(g, id, period, now + offset) else id !in g
  {
    if n > 0 {
      GenerationEnters(s, ids, made, now, lazy, n - 1, id, period, offset);
      assert ids[..n] == ids[..n - 1] + [ids[n - 1]];
      assert OffsetMessage(made[n - 1], id, offset);
    }
  }

  lemma {:induction false} ImmediateEnters(s: Schedule, target: nat, ids: seq<nat>, made: seq<BusMessage>, now: nat,
                                           n: nat, id: nat, period: nat, offset: nat)
    requires MadeBy(ids, made) && n <= |ids| && id !in s
    requires forall j | 0 <= j < |made| :: SteadyMessage(made[j], id, period) && OffsetMessage(made[j], id, offset)
    ensures var g := Immediately(s, target, ids, made, now, n).0;
            if target == id && id in ids[..n] then SteadyEntry(g, id, period, now + offset) else id !in g
  {
    if n > 0 {
      ImmediateEnters(s, target, ids, made, now, n - 1, id, period, offset);
      assert ids[..n] == ids[..n - 1] + [ids[n - 1]];
      assert OffsetMessage(made[n - 1], id, offset);
    }
  }

  lemma TickEnters(s: Schedule, ids: seq<nat>, now: nat, made: seq<BusMessage>, lazy: bool, id: nat, period: nat,
                   offset: nat)
    requires MadeBy(ids, made) && id !in s
    requires forall j | 0 <= j < |made| :: SteadyMessage(made[j], id, period) && OffsetMessage(made[j], id, offset)
    ensures var (s', output) := Next(s, ids, Tick(now, made), lazy);
            if id !in ids then id !in s' && id !in output.sends
            else (id in output.sends <==> offset == 0)
                 && SteadyEntry(s', id, period, if offset == 0 then now + period else now + offset)
  {
    GenerationEnters(s, ids, made, now, lazy, |ids|, id, period, offset);
    assert ids[..|ids|] == ids;
    hide Generated;
  }

  /** A message that enters the schedule at some time is due that time plus its
      offset, and the tick that brings it passes it at once only without offset. */
  lemma EntersWithOffset(s: Schedule, ids: seq<nat>, ev: Event, lazy: bool, id: nat, period: nat, offset: nat)
    requires Proper(ids, ev) && SteadyEvent(ev, id, period) && OffsetEvent(ev, id, offset) && id !in s
    ensures id in Next(s, ids, ev, lazy).0 <==> Brings(ids, ev, id)
    ensures Brings(ids, ev, id) ==>
              SteadyEntry(Next(s, ids, ev, lazy).0, id, period,
                          if ev.Tick? && offset == 0 then ev.now + period else ev.now + offset)
    ensures Brings(ids, ev, id) && ev.Tick? ==> (id in Next(s, ids, ev, lazy).1.sends <==> offset == 0)
  {
    match ev
    case Tick(now, made) =>
      TickEnters(s, ids, now, made, lazy, id, period, offset);
      hide Next;
    case Immediate(target, now, made) =>
      ImmediateEnters(s, target, ids, made, now, |ids|, id, period, offset);
      assert ids[..|ids|] == ids;
      hide Immediately;
    case _ =>
  }

  /** An identifier is in the schedule from the first event on that brings it. */
  lemma {:induction false} EntersWhenBrought(ids: seq<nat>, evs: seq<Event>, lazy: bool, id: nat, period: nat,
                                             offset: nat, n: nat)
    requires SteadyRun(ids, evs, id, period) && n <= |evs|
    requires forall i | 0 <= i < |evs| :: OffsetEvent(evs[i], id, offset)
    ensures id in After(map[], ids, evs, lazy, n) <==> exists i :: 0 <= i < n && Brings(ids, evs[i], id)
  {
    if n > 0 {
      EntersWhenBrought(ids, evs, lazy, id, period, offset, n - 1);
      var before := After(map[], ids, evs, lazy, n - 1);
      hide Next, Brings;
      if id !in before {
        EntersWithOffset(before, ids, evs[n - 1], lazy, id, period, offset);
      } else {
        NothingLeaves(before, ids, evs[n - 1], lazy, id);
      }
    }
  }

  lemma NothingLeaves(s: Schedule, ids: seq<nat>, ev: Event, lazy: bool, id: nat)
    requires Proper(ids, ev) && id in s
    ensures id in Next(s, ids, ev, lazy).0
  {
    match ev
    case Tick(now, made) => GenerationKeepsKeys(s, 0, ids, made, now, lazy, |ids|, id);
    case Immediate(target, now, made) => GenerationKeepsKeys(s, target, ids, made, now, lazy, |ids|, id);
    case _ =>
  }

  lemma {:induction false} GenerationKeepsKeys(s: Schedule, target: nat, ids: seq<nat>, made: seq<BusMessage>,
                                               now: nat, lazy: bool, n: nat, id: nat)
    requires MadeBy(ids, made) && n <= |ids| && id in s
    ensures id in Generated(s, ids, made, now, lazy, n) && id in Immediately(s, target, ids, made, now, n).0
  {
    if n > 0 {
      GenerationKeepsKeys(s, target, ids, made, now, lazy, n - 1, id);
    }
  }

  lemma {:induction false} AfterFrom(s: Schedule, ids: seq<nat>, evs: seq<Event>, lazy: bool, e: nat, n: nat)
    requires ProperRun(ids, evs) && e <= n <= |evs|
    ensures ProperRun(ids, evs[e..])
    ensures After(s, ids, evs, lazy, n) == After(After(s, ids, evs, lazy, e), ids, evs[e..], lazy, n - e)
    decreases n
  {
    hide Next;
    if e < n {
      AfterFrom(s, ids, evs, lazy, e, n - 1);
      assert evs[e..][n - 1 - e] == evs[n - 1];
    }
  }

  /** The run from the event after e on is as steady as the whole. */
  lemma SteadyFrom(ids: seq<nat>, evs: seq<Event>, id: nat, period: nat, e: nat)
    requires SteadyRun(ids, evs, id, period) && e <= |evs|
    ensures SteadyRun(ids, evs[e..], id, period)
  {
    var rest := evs[e..];
    forall i | 0 <= i < |rest| ensures Proper(ids, rest[i]) && SteadyEvent(rest[i], id, period) {
      assert rest[i] == evs[e + i];
    }
    forall i, j | 0 <= i < j < |rest| && rest[i].Tick? && rest[j].Tick? ensures rest[i].now <= rest[j].now {
      assert rest[i] == evs[e + i] && rest[j] == evs[e + j];
    }
  }

  /** No tick among events from e up to n falls into the slot of tick n. */
  predicate FirstInSlot(evs: seq<Event>, first: nat, period: nat, e: nat, n: nat)
    requires period > 0 && e <= n < |evs|
  {
    && evs[n].now >= first
    && forall i | e <= i < n && evs[i].Tick? && evs[i].now >= first ::
         SlotOf(first, period, evs[i].now) != SlotOf(first, period, evs[n].now)
  }

  lemma FirstInSlotFrom(evs: seq<Event>, first: nat, period: nat, e: nat, n: nat)
    requires period > 0 && e <= n < |evs|
    ensures FirstInSlot(evs[e..], first, period, 0, n - e) <==> FirstInSlot(evs, first, period, e, n)
  {
    hide SlotOf;
    var rest := evs[e..];
    assert rest[n - e] == evs[n];
    assert forall i | 0 <= i < n - e :: rest[i] == evs[e + i];
    assert forall i | e <= i < n :: evs[i] == rest[i - e];
  }

  lemma SentAfter(s: Schedule, ids: seq<nat>, evs: seq<Event>, lazy: bool, id: nat, period: nat, first: nat, e: nat,
                  n: nat)
    requires SteadyRun(ids, evs, id, period) && period > 0 && e <= n < |evs| && evs[n].Tick?
    requires SteadyEntry(After(s, ids, evs, lazy, e), id, period, first)
    ensures SentAt(s, ids, evs, lazy, id, n) <==> FirstInSlot(evs, first, period, e, n)
  {
    var start, rest := After(s, ids, evs, lazy, e), evs[e..];
    AfterFrom(s, ids, evs, lazy, e, n);
    SteadyFrom(ids, evs, id, period, e);
    assert rest[n - e] == evs[n];
    assert SentAt(s, ids, evs, lazy, id, n) <==> SentAt(start, ids, rest, lazy, id, n - e);
    hide SteadyRun, SlotOf, SteadyEntry, After, SentAt;
    SentOncePerSlot(start, ids, rest, lazy, id, period, first, n - e);
    FirstInSlotFrom(evs, first, period, e, n);
  }

  lemma NextSlot(first: nat, period: nat, t: nat)
    requires period > 0 && t >= first
    ensures SlotOf(first, period, t) == if t < first + period then 0 else SlotOf(first + period, period, t) + 1
  {
    QuotientAtLeast(t - first, 1, period);
    if t >= first + period {
      QuotientShift(t - first, 1, period);
    }
  }

  /** A tick at the very beginning of the grid uses up its first slot. */
  lemma FirstSlotUsed(evs: seq<Event>, first: nat, period: nat, e: nat, n: nat)
    requires period > 0 && e < n < |evs| && evs[e].Tick? && evs[e].now == first && evs[n].Tick?
    ensures FirstInSlot(evs, first + period, period, e + 1, n) <==> FirstInSlot(evs, first, period, e, n)
  {
    NextSlot(first, period, first);
    if evs[n].now >= first {
      NextSlot(first, period, evs[n].now);
    }
    forall i | e <= i < n && evs[i].Tick? && evs[i].now >= first
      ensures SlotOf(first, period, evs[i].now)
           == if evs[i].now < first + period then 0 else SlotOf(first + period, period, evs[i].now) + 1
    {
      NextSlot(first, period, evs[i].now);
    }
    hide SlotOf;
  }

  /** From an empty schedule: a message that event e brings first, at time t, goes out
      on exactly one tick in each slot of the grid t + offset, t + offset + period, ... */
  lemma SentFromOffsetOn(ids: seq<nat>, evs: seq<Event>, lazy: bool, id: nat, period: nat, offset: nat, e: nat, n: nat)
    requires SteadyRun(ids, evs, id, period) && period > 0
    requires forall i | 0 <= i < |evs| :: OffsetEvent(evs[i], id, offset)
    requires e < n < |evs| && evs[n].Tick?
    requires Brings(ids, evs[e], id) && forall i | 0 <= i < e :: !Brings(ids, evs[i], id)
    ensures SentAt(map[], ids, evs, lazy, id, n) <==> FirstInSlot(evs, evs[e].now + offset, period, e, n)
  {
    hide Next, SlotOf, Brings, SteadyEvent, OffsetEvent, SteadyEntry, After, SentAt, FirstInSlot, Proper;
    var t := evs[e].now;
    EntryAfter(ids, evs, lazy, id, period, offset, e);
    if evs[e].Tick? && offset == 0 {
      SentAfter(map[], ids, evs, lazy, id, period, t + period, e + 1, n);
      FirstSlotUsed(evs, t, period, e, n);
    } else {
      SentAfter(map[], ids, evs, lazy, id, period, t + offset, e + 1, n);
      EntryNotInSlot(evs, t + offset, period, e, n);
    }
  }

  lemma EntryNotInSlot(evs: seq<Event>, first: nat, period: nat, e: nat, n: nat)
    requires period > 0 && e < n < |evs| && (evs[e].Tick? ==> evs[e].now < first)
    ensures FirstInSlot(evs, first, period, e + 1, n) <==> FirstInSlot(evs, first, period, e, n)
  {
    hide SlotOf;
  }

  /** The entry of a message right after the first event that brings it. */
  lemma EntryAfter(ids: seq<nat>, evs: seq<Event>, lazy: bool, id: nat, period: nat, offset: nat, e: nat)
    requires SteadyRun(ids, evs, id, period) && e < |evs| && Brings(ids, evs[e], id)
    requires forall i | 0 <= i < |evs| :: OffsetEvent(evs[i], id, offset)
    requires forall i | 0 <= i < e :: !Brings(ids, evs[i], id)
    ensures var due := if evs[e].Tick? && offset == 0 then evs[e].now + period else evs[e].now + offset;
            SteadyEntry(After(map[], ids, evs, lazy, e + 1), id, period, due)
  {
    EntersWhenBrought(ids, evs, lazy, id, period, offset, e);
    hide Next, Brings, SteadyEntry, SteadyEvent, OffsetEvent;
    EntersWithOffset(After(map[], ids, evs, lazy, e), ids, evs[e], lazy, id, period, offset);
  }

  /** The tick that brings the message sends it exactly if it has no offset. */
  lemma SentOnEntry(ids: seq<nat>, evs: seq<Event>, lazy: bool, id: nat, period: nat, offset: nat, e: nat)
    requires SteadyRun(ids, evs, id, period) && e < |evs| && evs[e].Tick? && id in ids
    requires forall i | 0 <= i < |evs| :: OffsetEvent(evs[i], id, offset)
    requires forall i | 0 <= i < e :: !Brings(ids, evs[i], id)
    ensures SentAt(map[], ids, evs, lazy, id, e) <==> offset == 0
  {
    EntersWhenBrought(ids, evs, lazy, id, period, offset, e);
    EntersWithOffset(After(map[], ids, evs, lazy, e), ids, evs[e], lazy, id, period, offset);
  }
}
