/** The periodic message scheduler: entries keyed by identifier, their due
    times, and what one pass over them sends. */
module Scheduler {
  import opened Bytes

  const MAX_DATA := 32

  /** `header` stands for the fields the scheduler only copies. */
  datatype BusMessage = BusMessage(id: nat, data: seq<byte>, dataLength: byte, periodicityMs: nat, offsetMs: nat,
                                   isActive: bool, header: nat)

  datatype Entry = Entry(message: BusMessage, periodicityMs: nat, nextDueTime: nat, lastSentTime: nat)

  type Schedule = map<nat, Entry>

  /** What an update of an existing entry stores of a message. */
  function Stored(m: BusMessage): BusMessage {
    m.(dataLength := if m.dataLength > MAX_DATA then MAX_DATA else m.dataLength)
  }

  function NewEntry(m: BusMessage, now: nat): Entry {
    Entry(m, m.periodicityMs, now + m.offsetMs, 0)
  }

  /** An update replaces content and period and keeps the due time. */
  function AddOrUpdated(s: Schedule, m: BusMessage, now: nat): Schedule {
    s[m.id := if m.id in s then s[m.id].(message := Stored(m), periodicityMs := m.periodicityMs) else NewEntry(m, now)]
  }

  predicate Due(e: Entry, now: nat) {
    now >= e.nextDueTime
  }

  predicate ShouldGenerate(s: Schedule, id: nat, now: nat) {
    id in s ==> Due(s[id], now)
  }

  function NextDue(due: nat, period: nat, now: nat): nat
    requires now >= due
  {
    if period > 0 then due + ((now - due) / period + 1) * period else now
  }

  /** An entry after one pass at `now`. */
  function Passed(e: Entry, now: nat): Entry {
    if Due(e, now)
    then e.(lastSentTime := if e.message.isActive then now else e.lastSentTime,
            nextDueTime := NextDue(e.nextDueTime, e.periodicityMs, now))
    else e
  }

  function Updated(s: Schedule, now: nat): Schedule {
    map id | id in s :: Passed(s[id], now)
  }

  /** What one pass sends, entry by entry; the order is up to the container. */
  function Sends(s: Schedule, now: nat): map<nat, BusMessage> {
    map id | id in s && Due(s[id], now) && s[id].message.isActive :: s[id].message
  }

  // An immediate send looks up the identifier in 16 bits.
  function ShortId(id: nat): nat { id % 0x10000 }

  function SentImmediately(s: Schedule, id: nat, now: nat): Schedule {
    if ShortId(id) in s then s[ShortId(id) := s[ShortId(id)].(lastSentTime := now)] else s
  }

  function ImmediateOutput(s: Schedule, id: nat): seq<BusMessage> {
    if ShortId(id) in s then [s[ShortId(id)].message] else []
  }

  /** `batch` is what `sends` holds, each message once, in some order. */
  ghost predicate InSomeOrder(batch: seq<BusMessage>, sends: map<nat, BusMessage>) {
    exists order: seq<nat> :: Orders(order, batch, sends)
  }

  predicate Orders(order: seq<nat>, batch: seq<BusMessage>, sends: map<nat, BusMessage>) {
    && |order| == |batch|
    && (forall i | 0 <= i < |order| :: order[i] in sends && batch[i] == sends[order[i]])
    && (forall i, j | 0 <= i < j < |order| :: order[i] != order[j])
    && (forall id | id in sends :: id in order)
  }

  class TransportLayer {
    var sent: seq<BusMessage>

    method SendMessage(m: BusMessage)
      modifies this
      ensures sent == old(sent) + [m]
    {
      sent := sent + [m];
    }
  }

  class MessageScheduler {
    var scheduledMessages: Schedule

    constructor ()
      ensures scheduledMessages == map[]
    {
      scheduledMessages := map[];
    }

    method HasDueMessages(currentTime: nat) returns (hasDueMessages: bool)
      ensures hasDueMessages == exists id :: id in scheduledMessages && Due(scheduledMessages[id], currentTime)
    {
      var left := scheduledMessages.Keys;
      while left != {}
        invariant left <= scheduledMessages.Keys
        invariant forall id :: id in scheduledMessages && id !in left ==> !Due(scheduledMessages[id], currentTime)
        decreases left
      {
        var id :| id in left;
        if currentTime >= scheduledMessages[id].nextDueTime {
          return true;
        }
        left := left - {id};
      }
      return false;
    }

    method ShouldGenerateMessage(id: nat, currentTime: nat) returns (shouldGenerate: bool)
      ensures shouldGenerate == ShouldGenerate(scheduledMessages, id, currentTime)
    {
      shouldGenerate := true;
      if id in scheduledMessages {
        shouldGenerate := currentTime >= scheduledMessages[id].nextDueTime;
      }
    }

    method AddOrUpdateMessage(message: BusMessage, currentTime: nat)
      modifies this
      ensures scheduledMessages == AddOrUpdated(old(scheduledMessages), message, currentTime)
      ensures scheduledMessages - {message.id} == old(scheduledMessages) - {message.id}
      ensures message.id in scheduledMessages
      ensures var known, entry := message.id in old(scheduledMessages), scheduledMessages[message.id];
              && entry.message.data == message.data && entry.message.(dataLength := message.dataLength) == message
              && entry.message.dataLength == (if known && message.dataLength > 32 then 32 else message.dataLength)
              && entry.periodicityMs == message.periodicityMs
              && (known ==> entry.nextDueTime == old(scheduledMessages)[message.id].nextDueTime)
              && (!known ==> entry.nextDueTime == currentTime + message.offsetMs)
    {
      if message.id in scheduledMessages {
        var entry := scheduledMessages[message.id].(message := message);
        var copyLen := message.dataLength;
        if message.dataLength > MAX_DATA {
          copyLen := MAX_DATA;
        }
        entry := entry.(message := entry.message.(dataLength := copyLen), periodicityMs := message.periodicityMs);
        scheduledMessages := scheduledMessages[message.id := entry];
      } else {
        scheduledMessages := scheduledMessages[message.id :=
          Entry(message, message.periodicityMs, currentTime + message.offsetMs, 0)];
      }
    }

    /** One entry is looked at: sent if it is due and active, and moved past now. */
    method Handle(entry: Entry, currentTime: nat, transportLayer: TransportLayer) returns (scheduled: Entry)
      modifies transportLayer
      ensures scheduled == Passed(entry, currentTime)
      ensures var send := Due(entry, currentTime) && entry.message.isActive;
              transportLayer.sent == old(transportLayer.sent) + if send then [entry.message] else []
    {
      scheduled := entry;
      if currentTime >= scheduled.nextDueTime {
        if scheduled.message.isActive {
          transportLayer.SendMessage(scheduled.message);
          scheduled := scheduled.(lastSentTime := currentTime);
        }
        if scheduled.periodicityMs > 0 {
          var elapsedPeriods := (currentTime - scheduled.nextDueTime) / scheduled.periodicityMs;
          scheduled := scheduled.(
            nextDueTime := scheduled.nextDueTime + (elapsedPeriods + 1) * scheduled.periodicityMs);
        } else {
          scheduled := scheduled.(nextDueTime := currentTime);
        }
      }
    }

    method Update(currentTime: nat, transportLayer: TransportLayer)
      modifies this, transportLayer
      ensures scheduledMessages == Updated(old(scheduledMessages), currentTime)
      ensures old(transportLayer.sent) <= transportLayer.sent
      ensures InSomeOrder(transportLayer.sent[|old(transportLayer.sent)|..], Sends(old(scheduledMessages), currentTime))
    {
      ghost var before, already := scheduledMessages, transportLayer.sent;
      ghost var order: seq<nat>, batch: seq<BusMessage> := [], [];
      var left := scheduledMessages.Keys;
      NothingHandled(before, currentTime);
      AllHandled(before, currentTime);
      hide Orders, Handled, Sends, Passed;
      while left != {}
        invariant left <= before.Keys == scheduledMessages.Keys
        invariant forall id | id in before ::
                    scheduledMessages[id] == if id in left then before[id] else Passed(before[id], currentTime)
        invariant transportLayer.sent == already + batch
        invariant Orders(order, batch, Handled(before, currentTime, left))
        decreases left
      {
        var id :| id in left;
        order, batch := OneMoreHandled(before, currentTime, left, id, order, batch);
        var scheduled := Handle(scheduledMessages[id], currentTime, transportLayer);
        scheduledMessages := scheduledMessages[id := scheduled];
        left := left - {id};
      }
      assert transportLayer.sent[|already|..] == batch;
    }

    method SendImmedateMessage(id: nat, currentTime: nat, transportLayer: TransportLayer)
      modifies this, transportLayer
      ensures scheduledMessages == SentImmediately(old(scheduledMessages), id, currentTime)
      ensures transportLayer.sent == old(transportLayer.sent) + ImmediateOutput(old(scheduledMessages), id)
    {
      var shortId := id % 0x10000;
      if shortId in scheduledMessages {
        var entry := scheduledMessages[shortId];
        scheduledMessages := scheduledMessages[shortId := entry.(lastSentTime := currentTime)];
        transportLayer.SendMessage(entry.message);
      }
    }
  }

  // What a pass over all entries but those in `left` sends.
  ghost function Handled(s: Schedule, now: nat, left: set<nat>): map<nat, BusMessage> {
    map id | id in s && id !in left && Due(s[id], now) && s[id].message.isActive :: s[id].message
  }

  lemma NothingHandled(s: Schedule, now: nat)
    ensures Orders([], [], Handled(s, now, s.Keys))
  {
  }

  lemma AllHandled(s: Schedule, now: nat)
    ensures Handled(s, now, {}) == Sends(s, now)
  {
  }

  lemma OneMoreHandled(s: Schedule, now: nat, left: set<nat>, id: nat, order: seq<nat>, batch: seq<BusMessage>)
    returns (order': seq<nat>, batch': seq<BusMessage>)
    requires id in s && id in left && Orders(order, batch, Handled(s, now, left))
    ensures batch' == if Due(s[id], now) && s[id].message.isActive then batch + [s[id].message] else batch
    ensures Orders(order', batch', Handled(s, now, left - {id}))
  {
    if Due(s[id], now) && s[id].message.isActive {
      order', batch' := order + [id], batch + [s[id].message];
      assert Handled(s, now, left - {id}) == Handled(s, now, left)[id := s[id].message];
    } else {
      order', batch' := order, batch;
      assert Handled(s, now, left - {id}) == Handled(s, now, left);
    }
  }
}
