/** What immediate sends put on the bus, and what the schedule remembers of the
    last transmission of every message. */
module ImmediateSends {
  import opened Scheduler
  import opened LazyGeneration

  // ---- Content ----

  /** What the first n handlers make for one identifier, in turn. */
  function MadeFor(ids: seq<nat>, made: seq<BusMessage>, id: nat, n: nat): (r: seq<BusMessage>)
    requires MadeBy(ids, made) && n <= |ids|
    ensures forall k | 0 <= k < |r| :: r[k].id == id
  {
    if n == 0 then [] else MadeFor(ids, made, id, n - 1) + if ids[n - 1] == id then [made[n - 1]] else []
  }

  predicate SameContents(sent: seq<BusMessage>, made: seq<BusMessage>, known: bool) {
    |sent| == |made| && forall k | 0 <= k < |sent| :: SameContent(sent[k], made[k], known)
  }

  lemma OneHandlerSends(s: Schedule, m: BusMessage, now: nat)
    ensures m.id < 65536 ==>
              |ImmediateOutput(AddOrUpdated(s, m, now), m.id)| == 1
              && SameContent(ImmediateOutput(AddOrUpdated(s, m, now), m.id)[0], m, m.id in s)
    ensures m.id >= 65536 ==>
              var sent := ImmediateOutput(AddOrUpdated(s, m, now), m.id);
              sent == if m.id % 65536 in s then [s[m.id % 65536].message] else []
  {
  }

  /** An immediate send of a 16-bit identifier puts out what each of its handlers
      has just made, in turn and as it was made. A longer identifier is cut to 16
      bits on the way: then every message put out is the one stored under those,
      which belongs to somebody else, and without one nothing goes out. */
  lemma {:induction false} ImmediateExactly(s: Schedule, id: nat, ids: seq<nat>, made: seq<BusMessage>, now: nat,
                                            n: nat)
    requires MadeBy(ids, made) && n <= |ids|
    ensures var (s', sent) := Immediately(s, id, ids, made, now, n);
            && (id in s ==> id in s') && (id % 65536 != id ==> (id % 65536 in s <==> id % 65536 in s'))
            && (id < 65536 ==> SameContents(sent, MadeFor(ids, made, id, n), id in s))
            && (id >= 65536 && id % 65536 in s ==>
                  && s'[id % 65536].message == s[id % 65536].message && |sent| == |MadeFor(ids, made, id, n)|
                  && forall m | m in sent :: m == s[id % 65536].message)
            && (id >= 65536 && id % 65536 !in s ==> sent == [])
  {
    if n > 0 {
      ImmediateExactly(s, id, ids, made, now, n - 1);
      if ids[n - 1] == id {
        var (before, sent) := Immediately(s, id, ids, made, now, n - 1);
        OneHandlerSends(before, made[n - 1], now);
        hide SameContent;
        if id < 65536 {
          var out := ImmediateOutput(AddOrUpdated(before, made[n - 1], now), id);
          ReplacedOrNew(out[0], made[n - 1], id in before, id in s);
        }
      }
    }
  }

  // ---- The last transmission ----

  predicate PutOut(out: Output, id: nat) {
    match out
    case Pass(sends) => id in sends
    case Ordered(messages) => exists m :: m in messages && m.id == id
  }

  /** The time of the latest of the first n events that put this message on the bus, or 0. */
  function LastTransmission(ids: seq<nat>, evs: seq<Event>, lazy: bool, id: nat, n: nat): nat
    requires ProperRun(ids, evs) && n <= |evs|
  {
    if n == 0 then 0
    else if PutOut(OutputOf(map[], ids, evs, lazy, n - 1), id) then evs[n - 1].now
    else LastTransmission(ids, evs, lazy, id, n - 1)
  }

  /** Every entry is stored under the identifier of its message. */
  predicate KeysAreIds(s: Schedule) {
    forall id | id in s :: s[id].message.id == id
  }

  /** What an entry says of its last transmission; 0 if there is no entry. */
  function Remembered(s: Schedule, id: nat): nat {
    if id in s then s[id].lastSentTime else 0
  }

  lemma {:induction false} GenerationForgetsNothing(s: Schedule, ids: seq<nat>, made: seq<BusMessage>, now: nat,
                                                    lazy: bool, n: nat, id: nat)
    requires MadeBy(ids, made) && n <= |ids| && KeysAreIds(s)
    ensures KeysAreIds(Generated(s, ids, made, now, lazy, n))
    ensures Remembered(Generated(s, ids, made, now, lazy, n), id) == Remembered(s, id)
  {
    hide ShouldGenerate;
    if n > 0 {
      GenerationForgetsNothing(s, ids, made, now, lazy, n - 1, id);
    }
  }

  lemma {:induction false} ImmediateRemembered(s: Schedule, target: nat, ids: seq<nat>, made: seq<BusMessage>,
                                               now: nat, n: nat, id: nat)
    requires MadeBy(ids, made) && n <= |ids| && KeysAreIds(s)
    ensures var (s', sent) := Immediately(s, target, ids, made, now, n);
            && KeysAreIds(s')
            && Remembered(s', id) == if PutOut(Ordered(sent), id) then now else Remembered(s, id)
  {
    if n > 0 {
      ImmediateRemembered(s, target, ids, made, now, n - 1, id);
      if ids[n - 1] == target {
        var (before, sent) := Immediately(s, target, ids, made, now, n - 1);
        var added := AddOrUpdated(before, made[n - 1], now);
        OneSendRemembered(added, target, now, sent, id);
        assert Remembered(added, id) == Remembered(before, id);
      }
    }
  }

  lemma OneSendRemembered(s: Schedule, target: nat, now: nat, sent: seq<BusMessage>, id: nat)
    requires KeysAreIds(s)
    ensures var s', out := SentImmediately(s, target, now), ImmediateOutput(s, target);
            && KeysAreIds(s')
            && (PutOut(Ordered(sent + out), id) <==> PutOut(Ordered(sent), id) || PutOut(Ordered(out), id))
            && Remembered(s', id) == if PutOut(Ordered(out), id) then now else Remembered(s, id)
  {
    var out := ImmediateOutput(s, target);
    assert forall m :: m in sent + out <==> m in sent || m in out;
    if ShortId(target) in s {
      assert s[ShortId(target)].message in out;
    }
  }

  lemma EventRemembered(s: Schedule, ids: seq<nat>, ev: Event, lazy: bool, id: nat)
    requires Proper(ids, ev) && KeysAreIds(s)
    ensures var (s', out) := Next(s, ids, ev, lazy);
            && KeysAreIds(s')
            && Remembered(s', id) == if PutOut(out, id) then ev.now else Remembered(s, id)
  {
    hide NamesItself;
    match ev
    case Tick(now, made) => GenerationForgetsNothing(s, ids, made, now, lazy, |ids|, id);
    case Immediate(target, now, made) => ImmediateRemembered(s, target, ids, made, now, |ids|, id);
    case Add(m, now) =>
    case SendStored(target, now) =>
      OneSendRemembered(s, target, now, [], id);
      assert [] + ImmediateOutput(s, target) == ImmediateOutput(s, target);
  }

  /** In every run the time an entry remembers is that of the latest event that
      put its message on the bus, whichever way. */
  lemma {:induction false} RemembersLastTransmission(ids: seq<nat>, evs: seq<Event>, lazy: bool, id: nat, n: nat)
    requires ProperRun(ids, evs) && n <= |evs|
    ensures KeysAreIds(After(map[], ids, evs, lazy, n))
    ensures Remembered(After(map[], ids, evs, lazy, n), id) == LastTransmission(ids, evs, lazy, id, n)
  {
    hide Next, PutOut, Remembered, KeysAreIds, Proper;
    if n == 0 {
      NothingRemembered(id);
    } else {
      RemembersLastTransmission(ids, evs, lazy, id, n - 1);
      EventRemembered(After(map[], ids, evs, lazy, n - 1), ids, evs[n - 1], lazy, id);
    }
  }

  lemma NothingRemembered(id: nat)
    ensures KeysAreIds(map[]) && Remembered(map[], id) == 0
  {
  }
}
