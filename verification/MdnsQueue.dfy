/** The transmit queue shared by the timer task and the service task: sorted,
    with the handed-over packets in front, in every reachable state. */
module MdnsQueue {
  import opened MdnsResponder

  predicate Sorted(q: seq<Packet>) {
    forall i, j | 0 <= i < j < |q| :: q[i].sendAt <= q[j].sendAt
  }

  predicate HasId(q: seq<Packet>, id: nat) {
    exists i :: 0 <= i < |q| && q[i].id == id
  }

  predicate DistinctIds(q: seq<Packet>) {
    forall i, j | 0 <= i < j < |q| :: q[i].id != q[j].id
  }

  function Ids(q: seq<Packet>): (r: seq<nat>)
    ensures |r| == |q| && forall i | 0 <= i < |q| :: r[i] == q[i].id
  {
    seq(|q|, i requires 0 <= i < |q| => q[i].id)
  }

  /** The pending actions whose packet is still in the queue. */
  function Live(actions: seq<nat>, q: seq<Packet>): seq<nat> {
    if actions == [] then [] else
    var rest := Live(actions[1..], q);
    if HasId(q, actions[0]) then [actions[0]] + rest else rest
  }

  /** Sorted, and exactly the first k packets are marked as handed over; these are overdue. */
  predicate Ordered(q: seq<Packet>, k: nat, now: nat) {
    && k <= |q| && Sorted(q)
    && (forall i | 0 <= i < |q| :: q[i].queued <==> i < k)
    && (forall i | 0 <= i < k :: q[i].sendAt < now)
  }

  predicate NumberedBelow(q: seq<Packet>, nextId: nat) {
    forall i | 0 <= i < |q| :: q[i].id < nextId
  }

  predicate Numbered(q: seq<Packet>, actions: seq<nat>, nextId: nat) {
    && DistinctIds(q) && NumberedBelow(q, nextId)
    && (forall i | 0 <= i < |actions| :: actions[i] < nextId)
  }

  /** Besides, the pending actions of live packets are those k packets in order. */
  predicate Consistent(r: Responder, k: nat) {
    && Ordered(r.queue, k, r.now) && Numbered(r.queue, r.actions, r.nextId)
    && Live(r.actions, r.queue) == Ids(r.queue[..k])
  }

  // ---- Live actions ----

  lemma {:induction false} LiveSame(actions: seq<nat>, q: seq<Packet>, q': seq<Packet>)
    requires forall a | a in actions :: HasId(q, a) <==> HasId(q', a)
    ensures Live(actions, q) == Live(actions, q')
  {
    if actions != [] {
      LiveSame(actions[1..], q, q');
    }
  }

  lemma {:induction false} LiveAppend(actions: seq<nat>, id: nat, q: seq<Packet>)
    requires HasId(q, id)
    ensures Live(actions + [id], q) == Live(actions, q) + [id]
  {
    if actions == [] {
      assert [id][1..] == [] && Live([], q) == [];
    } else {
      assert (actions + [id])[1..] == actions[1..] + [id];
      LiveAppend(actions[1..], id, q);
    }
  }

  lemma {:induction false} LiveAll(actions: seq<nat>, q: seq<Packet>)
    ensures forall a | a in Live(actions, q) :: a in actions && HasId(q, a)
    ensures forall a | a in actions && HasId(q, a) :: a in Live(actions, q)
  {
    if actions != [] {
      LiveAll(actions[1..], q);
    }
  }

  // ---- Inserting ----

  lemma {:induction false} PositionSplits(q: seq<Packet>, sendAt: nat, i: nat)
    requires i <= |q| && Sorted(q)
    ensures var k := Position(q, sendAt, i);
            && (forall j | i <= j < k :: q[j].sendAt <= sendAt)
            && (forall j | k <= j < |q| :: q[j].sendAt > sendAt)
    decreases |q| - i
  {
    if i < |q| && q[i].sendAt <= sendAt {
      PositionSplits(q, sendAt, i + 1);
    }
  }

  lemma InsertedAt(q: seq<Packet>, p: Packet, i: nat)
    requires i <= |q|
    ensures var at := Position(q, p.sendAt, 0);
            Inserted(q, p)[i] == if i < at then q[i] else if i == at then p else q[i - 1]
  {
  }

  lemma InsertSorted(q: seq<Packet>, p: Packet)
    requires Sorted(q)
    ensures Sorted(Inserted(q, p))
  {
    PositionSplits(q, p.sendAt, 0);
    var at, q' := Position(q, p.sendAt, 0), Inserted(q, p);
    assert |q'| == |q| + 1;
    hide Position, Inserted;
    forall i, j | 0 <= i < j < |q'| ensures q'[i].sendAt <= q'[j].sendAt {
      InsertedAt(q, p, i);
      InsertedAt(q, p, j);
    }
  }

  lemma InsertOrdered(q: seq<Packet>, k: nat, now: nat, p: Packet)
    requires Ordered(q, k, now) && !p.queued && p.sendAt >= now
    ensures Ordered(Inserted(q, p), k, now) && Inserted(q, p)[..k] == q[..k]
  {
    PositionSplits(q, p.sendAt, 0);
    InsertSorted(q, p);
    var at, q' := Position(q, p.sendAt, 0), Inserted(q, p);
    assert |q'| == |q| + 1 && (at < |q| ==> q[at].sendAt > p.sendAt);
    hide Sorted, Position, Inserted;
    assert k <= at;
    forall i | 0 <= i < |q'| ensures (q'[i].queued <==> i < k) && (i < k ==> q'[i] == q[i]) {
      InsertedAt(q, p, i);
    }
  }

  lemma InsertKeepsDistinct(q: seq<Packet>, p: Packet)
    requires DistinctIds(q) && !HasId(q, p.id)
    ensures DistinctIds(Inserted(q, p))
  {
    var q' := Inserted(q, p);
    assert |q'| == |q| + 1;
    hide Position, Inserted;
    forall i, j | 0 <= i < j < |q'| ensures q'[i].id != q'[j].id {
      InsertedAt(q, p, i);
      InsertedAt(q, p, j);
    }
  }

  lemma InsertKeepsBelow(q: seq<Packet>, p: Packet, nextId: nat)
    requires NumberedBelow(q, nextId) && p.id < nextId
    ensures NumberedBelow(Inserted(q, p), nextId)
  {
    var q' := Inserted(q, p);
    assert |q'| == |q| + 1;
    hide Position, Inserted;
    forall i | 0 <= i < |q'| ensures q'[i].id < nextId {
      InsertedAt(q, p, i);
    }
  }

  lemma InsertNumbered(q: seq<Packet>, actions: seq<nat>, nextId: nat, p: Packet)
    requires Numbered(q, actions, nextId) && p.id < nextId && !HasId(q, p.id)
    ensures Numbered(Inserted(q, p), actions, nextId)
  {
    hide Inserted, DistinctIds, NumberedBelow, HasId;
    InsertKeepsDistinct(q, p);
    InsertKeepsBelow(q, p, nextId);
  }

  /** A packet that is new to queue and actions, or whose action is gone, goes in
      behind everything handed over. */
  lemma InsertConsistent(r: Responder, k: nat, p: Packet, ms: nat)
    requires Consistent(r, k) && !p.queued && p.id < r.nextId
    requires !HasId(r.queue, p.id) && p.id !in r.actions
    ensures Consistent(SentAfter(r, p, ms), k)
  {
    var p' := p.(sendAt := r.now + ms);
    InsertOrdered(r.queue, k, r.now, p');
    InsertNumbered(r.queue, r.actions, r.nextId, p');
    forall a | a in r.actions ensures HasId(r.queue, a) <==> HasId(Inserted(r.queue, p'), a) {
      InsertedIds(r.queue, p', a);
    }
    hide Ordered, Numbered, Inserted, HasId;
    LiveSame(r.actions, r.queue, Inserted(r.queue, p'));
  }

  lemma InsertedIds(q: seq<Packet>, p: Packet, id: nat)
    ensures HasId(Inserted(q, p), id) <==> HasId(q, id) || id == p.id
  {
    var at, q' := Position(q, p.sendAt, 0), Inserted(q, p);
    if HasId(q, id) {
      var i :| 0 <= i < |q| && q[i].id == id;
      assert q'[if i < at then i else i + 1].id == id;
    }
    assert q'[at] == p;
    if HasId(q', id) {
      var i :| 0 <= i < |q'| && q'[i].id == id;
      assert i < at ==> q[i].id == id;
      assert i > at ==> q[i - 1].id == id;
    }
  }

  // ---- Removing ----

  /** What is left once the packets in `drop` are gone, among the first n. */
  lemma {:induction false} WithoutPrefix(q: seq<Packet>, drop: set<nat>, n: nat)
    requires n <= |q|
    ensures Without(q[..n], drop) <= Without(q, drop)
    decreases |q|
  {
    if n < |q| {
      WithoutPrefix(q[..|q| - 1], drop, n);
      assert q[..|q| - 1][..n] == q[..n];
    } else {
      assert q[..n] == q;
    }
  }

  /** Packet i of the result is packet From(q, drop, i) of the queue. */
  function From(q: seq<Packet>, drop: set<nat>, i: nat): (j: nat)
    requires i < |Without(q, drop)|
    ensures j < |q| && q[j] == Without(q, drop)[i] && q[j].id !in drop
  {
    var front := q[..|q| - 1];
    if i < |Without(front, drop)| then From(front, drop, i) else |q| - 1
  }

  lemma {:induction false} FromMonotone(q: seq<Packet>, drop: set<nat>, i: nat, j: nat)
    requires i < j < |Without(q, drop)|
    ensures From(q, drop, i) < From(q, drop, j)
  {
    var front := q[..|q| - 1];
    if j < |Without(front, drop)| {
      FromMonotone(front, drop, i, j);
    }
  }

  lemma {:induction false} WithoutIds(q: seq<Packet>, drop: set<nat>, id: nat)
    ensures HasId(Without(q, drop), id) <==> HasId(q, id) && id !in drop
  {
    if q != [] {
      var front, last := q[..|q| - 1], q[|q| - 1];
      WithoutIds(front, drop, id);
      LastId(front, last, id);
      LastId(Without(front, drop), last, id);
      assert q == front + [last];
    }
  }

  lemma LastId(q: seq<Packet>, p: Packet, id: nat)
    ensures HasId(q + [p], id) <==> HasId(q, id) || id == p.id
  {
    assert (q + [p])[|q|] == p;
    if HasId(q, id) {
      var i :| 0 <= i < |q| && q[i].id == id;
      assert (q + [p])[i].id == id;
    }
  }

  function Kept(ids: seq<nat>, drop: set<nat>): seq<nat> {
    if ids == [] then [] else
    var front := Kept(ids[..|ids| - 1], drop);
    if ids[|ids| - 1] in drop then front else front + [ids[|ids| - 1]]
  }

  lemma {:induction false} KeptFirst(ids: seq<nat>, drop: set<nat>)
    requires ids != []
    ensures Kept(ids, drop) == if ids[0] in drop then Kept(ids[1..], drop) else [ids[0]] + Kept(ids[1..], drop)
  {
    var n := |ids| - 1;
    if n > 0 {
      KeptFirst(ids[..n], drop);
      assert ids[..n][1..] == ids[1..][..n - 1];
    }
  }

  lemma {:induction false} LiveWithout(actions: seq<nat>, q: seq<Packet>, drop: set<nat>)
    ensures Live(actions, Without(q, drop)) == Kept(Live(actions, q), drop)
  {
    if actions != [] {
      LiveWithout(actions[1..], q, drop);
      WithoutIds(q, drop, actions[0]);
      var first := actions[0];
      if HasId(q, first) {
        var rest := Live(actions[1..], q);
        KeptFirst([first] + rest, drop);
        assert ([first] + rest)[1..] == rest;
        assert [] + Kept(rest, drop) == Kept(rest, drop);
      }
    }
  }

  lemma {:induction false} IdsWithout(q: seq<Packet>, drop: set<nat>)
    ensures Ids(Without(q, drop)) == Kept(Ids(q), drop)
  {
    if q != [] {
      var n := |q| - 1;
      IdsWithout(q[..n], drop);
      assert Ids(q)[..n] == Ids(q[..n]);
    }
  }

  lemma WithoutOrdered(q: seq<Packet>, k: nat, now: nat, drop: set<nat>)
    requires Ordered(q, k, now)
    ensures Ordered(Without(q, drop), |Without(q[..k], drop)|, now)
  {
    var w, m := Without(q, drop), |Without(q[..k], drop)|;
    WithoutPrefix(q, drop, k);
    forall i | 0 <= i < |w| ensures (w[i].queued <==> i < m) && (i < m ==> w[i].sendAt < now) {
      if i < m {
        assert w[i] == Without(q[..k], drop)[i];
        assert q[..k][From(q[..k], drop, i)] == w[i];
      } else {
        BeyondPrefix(q, drop, k, i);
        assert q[From(q, drop, i)] == w[i];
      }
    }
    forall i, j | 0 <= i < j < |w| ensures w[i].sendAt <= w[j].sendAt {
      FromMonotone(q, drop, i, j);
      assert q[From(q, drop, i)] == w[i] && q[From(q, drop, j)] == w[j];
    }
  }

  lemma {:induction false} BeyondPrefix(q: seq<Packet>, drop: set<nat>, k: nat, i: nat)
    requires k <= |q| && i < |Without(q, drop)|
    ensures i >= |Without(q[..k], drop)| ==> From(q, drop, i) >= k
    decreases |q|
  {
    if k < |q| {
      var front := q[..|q| - 1];
      assert front[..k] == q[..k];
      if i < |Without(front, drop)| {
        BeyondPrefix(front, drop, k, i);
      }
    } else {
      assert q[..k] == q;
    }
  }

  lemma WithoutNumbered(q: seq<Packet>, actions: seq<nat>, nextId: nat, drop: set<nat>)
    requires Numbered(q, actions, nextId)
    ensures Numbered(Without(q, drop), actions, nextId)
  {
    var w := Without(q, drop);
    forall i | 0 <= i < |w| ensures w[i].id < nextId {
      assert q[From(q, drop, i)] == w[i];
    }
    forall i, j | 0 <= i < j < |w| ensures w[i].id != w[j].id {
      FromMonotone(q, drop, i, j);
    }
  }

  lemma WithoutConsistent(r: Responder, k: nat, drop: set<nat>)
    requires Consistent(r, k)
    ensures Consistent(r.(queue := Without(r.queue, drop)), |Without(r.queue[..k], drop)|)
  {
    var w, m := Without(r.queue, drop), |Without(r.queue[..k], drop)|;
    WithoutOrdered(r.queue, k, r.now, drop);
    WithoutNumbered(r.queue, r.actions, r.nextId, drop);
    LiveWithout(r.actions, r.queue, drop);
    IdsWithout(r.queue[..k], drop);
    WithoutPrefix(r.queue, drop, k);
    assert w[..m] == Without(r.queue[..k], drop);
  }

  /** Clearing one interface is dropping the packets it has. */
  lemma {:induction false} ClearedIsWithout(q: seq<Packet>, iface: nat, drop: set<nat>)
    requires forall i | 0 <= i < |q| :: q[i].id in drop <==> q[i].iface == iface
    ensures Cleared(q, iface) == Without(q, drop)
  {
    if q != [] {
      ClearedIsWithout(q[..|q| - 1], iface, drop);
    }
  }

  lemma ClearedConsistent(r: Responder, k: nat, iface: nat) returns (k': nat)
    requires Consistent(r, k)
    ensures Consistent(r.(queue := Cleared(r.queue, iface)), k')
  {
    var drop := set i | 0 <= i < |r.queue| && r.queue[i].iface == iface :: r.queue[i].id;
    forall i | 0 <= i < |r.queue| ensures r.queue[i].id in drop <==> r.queue[i].iface == iface {
      if r.queue[i].id in drop {
        var j :| 0 <= j < |r.queue| && r.queue[j].iface == iface && r.queue[j].id == r.queue[i].id;
        assert i == j;
      }
    }
    ClearedIsWithout(r.queue, iface, drop);
    WithoutConsistent(r, k, drop);
    k' := |Without(r.queue[..k], drop)|;
  }

  // ---- Handing over ----

  lemma FirstUnqueuedIs(q: seq<Packet>, k: nat, now: nat, i: nat)
    requires Ordered(q, k, now) && i <= k
    ensures FirstUnqueued(q, i) == k
    decreases k - i
  {
    if i < k {
      FirstUnqueuedIs(q, k, now, i + 1);
    }
  }

  lemma MarkedConsistent(r: Responder, k: nat)
    requires Consistent(r, k) && k < |r.queue| && r.queue[k].sendAt < r.now
    ensures Consistent(r.(queue := r.queue[k := r.queue[k].(queued := true)], actions := r.actions + [r.queue[k].id]),
                       k + 1)
  {
    var q, p := r.queue, r.queue[k];
    var q' := q[k := p.(queued := true)];
    forall a | a in r.actions ensures HasId(q, a) <==> HasId(q', a) {
      MarkedIds(q, k, a);
    }
    LiveSame(r.actions, q, q');
    assert q'[k].id == p.id;
    LiveAppend(r.actions, p.id, q');
    assert Ids(q'[..k + 1]) == Ids(q[..k]) + [p.id];
  }

  lemma MarkedIds(q: seq<Packet>, k: nat, id: nat)
    requires k < |q|
    ensures HasId(q[k := q[k].(queued := true)], id) <==> HasId(q, id)
  {
    var q' := q[k := q[k].(queued := true)];
    assert forall i | 0 <= i < |q| :: q'[i].id == q[i].id;
  }

  /** How the attempts of one run of the timer end, in order: one for each packet
      that is due from index i on, until memory runs out. */
  function Attempts(q: seq<Packet>, now: nat, i: nat, outcomes: seq<Push>): seq<Push>
    requires i <= |q|
    decreases |q| - i
  {
    if i == |q| || q[i].sendAt >= now then [] else
    var outcome, rest := if outcomes == [] then Pushed else outcomes[0], if outcomes == [] then [] else outcomes[1..];
    if outcome == NoMemory then [NoMemory] else [outcome] + Attempts(q, now, i + 1, rest)
  }

  /** After the first attempt that found the action queue full, none succeeds. */
  predicate Orderly(attempts: seq<Push>) {
    forall i, j | 0 <= i < j < |attempts| :: attempts[i] == QueueFull ==> attempts[j] != Pushed
  }

  lemma OrderlyFrom(first: Push, rest: seq<Push>)
    ensures Orderly([first] + rest) <==> Orderly(rest) && (first == QueueFull ==> Pushed !in rest)
  {
    var all := [first] + rest;
    assert forall i | 0 <= i < |rest| :: rest[i] == all[i + 1];
    assert all[0] == first;
    if Orderly(all) {
      forall i, j | 0 <= i < j < |rest| ensures rest[i] == QueueFull ==> rest[j] != Pushed {
        assert all[i + 1] == rest[i] && all[j + 1] == rest[j];
      }
      forall j | 0 <= j < |rest| && first == QueueFull ensures rest[j] != Pushed {
        assert all[j + 1] == rest[j];
      }
    }
  }

  function Due(r: Responder, i: nat, outcomes: seq<Push>): seq<Push>
    requires i <= |r.queue|
  {
    Attempts(r.queue, r.now, i, outcomes)
  }

  /** Marking a packet does not change which others are due. */
  lemma {:induction false} SameAttempts(q: seq<Packet>, q': seq<Packet>, now: nat, i: nat, outcomes: seq<Push>)
    requires i <= |q| == |q'| && forall j | i <= j < |q| :: q[j].sendAt == q'[j].sendAt
    ensures Attempts(q, now, i, outcomes) == Attempts(q', now, i, outcomes)
    decreases |q| - i
  {
    if i < |q| {
      SameAttempts(q, q', now, i + 1, if outcomes == [] then [] else outcomes[1..]);
    }
  }

  /** Only a successful attempt changes anything. */
  lemma {:induction false} NothingPushed(r: Responder, i: nat, outcomes: seq<Push>)
    requires i <= |r.queue| && forall j | i <= j < |r.queue| :: !r.queue[j].queued
    requires Pushed !in Due(r, i, outcomes)
    ensures HandedOver(r, i, outcomes) == r
    decreases |r.queue| - i
  {
    if i < |r.queue| && r.queue[i].sendAt < r.now && outcomes != [] && outcomes[0] == QueueFull {
      assert r.queue[i := r.queue[i].(queued := false)] == r.queue;
      assert Due(r, i, outcomes) == [QueueFull] + Due(r, i + 1, outcomes[1..]);
      NothingPushed(r, i + 1, outcomes[1..]);
    }
  }

  lemma {:induction false} FrontKept(r: Responder, i: nat, outcomes: seq<Push>)
    requires i <= |r.queue|
    ensures |HandedOver(r, i, outcomes).queue| == |r.queue| && HandedOver(r, i, outcomes).queue[..i] == r.queue[..i]
    decreases |r.queue| - i
  {
    if i < |r.queue| && r.queue[i].sendAt < r.now {
      var rest := if outcomes == [] then [] else outcomes[1..];
      var kept := r.(queue := r.queue[i := r.queue[i].(queued := false)]);
      var marked := r.(queue := r.queue[i := r.queue[i].(queued := true)], actions := r.actions + [r.queue[i].id]);
      FrontKept(kept, i + 1, rest);
      FrontKept(marked, i + 1, rest);
      assert forall q: seq<Packet> | |q| == |r.queue| && q[..i + 1] == kept.queue[..i + 1] :: q[..i + 1][..i] == q[..i];
      assert forall q: seq<Packet> | |q| == |r.queue| && q[..i + 1] == marked.queue[..i + 1] ::
          q[..i + 1][..i] == q[..i];
    }
  }

  /** A successful attempt leaves its packet marked. */
  lemma {:induction false} PushedMarks(r: Responder, i: nat, outcomes: seq<Push>) returns (j: nat)
    requires i <= |r.queue| && Pushed in Due(r, i, outcomes)
    ensures i <= j < |HandedOver(r, i, outcomes).queue| && HandedOver(r, i, outcomes).queue[j].queued
    decreases |r.queue| - i
  {
    var outcome, rest := if outcomes == [] then Pushed else outcomes[0], if outcomes == [] then [] else outcomes[1..];
    if outcome == Pushed {
      j := i;
      var marked := r.(queue := r.queue[i := r.queue[i].(queued := true)], actions := r.actions + [r.queue[i].id]);
      FrontKept(marked, i + 1, rest);
      assert HandedOver(marked, i + 1, rest).queue[..i + 1][i] == marked.queue[..i + 1][i];
    } else {
      var kept := r.(queue := r.queue[i := r.queue[i].(queued := false)]);
      SameAttempts(r.queue, kept.queue, r.now, i + 1, rest);
      j := PushedMarks(kept, i + 1, rest);
    }
  }

  /** Some prefix of the queue is what has been handed over. */
  ghost predicate HoldsTogether(r: Responder) {
    exists k :: Consistent(r, k)
  }

  /** A packet that was passed over with a marked one behind it. */
  lemma PassedOver(r: Responder, i: nat, j: nat)
    requires i < j < |r.queue| && !r.queue[i].queued && r.queue[j].queued
    ensures !HoldsTogether(r)
  {
  }

  lemma FullThenPushed(r: Responder, i: nat, outcomes: seq<Push>)
    requires i < |r.queue| && r.queue[i].sendAt < r.now && outcomes != [] && outcomes[0] == QueueFull
    requires Pushed in Due(r, i + 1, outcomes[1..])
    ensures !HoldsTogether(HandedOver(r, i, outcomes))
  {
    var kept := r.(queue := r.queue[i := r.queue[i].(queued := false)]);
    SameAttempts(r.queue, kept.queue, r.now, i + 1, outcomes[1..]);
    var j := PushedMarks(kept, i + 1, outcomes[1..]);
    FrontKept(kept, i + 1, outcomes[1..]);
    var after := HandedOver(kept, i + 1, outcomes[1..]);
    assert after.queue[..i + 1][i] == kept.queue[..i + 1][i];
    PassedOver(after, i, j);
  }

  /** A run of the timer keeps the queue consistent if and only if no attempt
      succeeds after one that found the action queue full. */
  lemma {:induction false} HandedOverConsistentIff(r: Responder, k: nat, outcomes: seq<Push>)
    requires Consistent(r, k)
    ensures HoldsTogether(HandedOver(r, k, outcomes)) <==> Orderly(Due(r, k, outcomes))
    decreases |r.queue| - k
  {
    assert k <= |r.queue|;
    hide Consistent, Orderly;
    if k == |r.queue| || r.queue[k].sendAt >= r.now || (outcomes != [] && outcomes[0] == NoMemory) {
      AtMostOneAttempt(r, k, outcomes);
    } else if outcomes == [] || outcomes[0] == Pushed {
      var rest := if outcomes == [] then [] else outcomes[1..];
      var marked := r.(queue := r.queue[k := r.queue[k].(queued := true)], actions := r.actions + [r.queue[k].id]);
      MarkedConsistent(r, k);
      HandedOverConsistentIff(marked, k + 1, rest);
      SameAttempts(r.queue, marked.queue, r.now, k + 1, rest);
      OrderlyFrom(Pushed, Due(r, k + 1, rest));
    } else {
      OrderlyFrom(QueueFull, Due(r, k + 1, outcomes[1..]));
      if Pushed in Due(r, k + 1, outcomes[1..]) {
        FullThenPushed(r, k, outcomes);
      } else {
        FullForGood(r, k, outcomes);
      }
    }
  }

  lemma AtMostOneAttempt(r: Responder, k: nat, outcomes: seq<Push>)
    requires Consistent(r, k)
    requires k == |r.queue| || r.queue[k].sendAt >= r.now || (outcomes != [] && outcomes[0] == NoMemory)
    ensures HandedOver(r, k, outcomes) == r && HoldsTogether(r) && Orderly(Due(r, k, outcomes))
  {
  }

  lemma FullForGood(r: Responder, k: nat, outcomes: seq<Push>)
    requires Consistent(r, k) && k < |r.queue| && outcomes != [] && outcomes[0] == QueueFull
    requires r.queue[k].sendAt < r.now && Pushed !in Due(r, k + 1, outcomes[1..])
    ensures HandedOver(r, k, outcomes) == r && HoldsTogether(r) && Orderly(Due(r, k + 1, outcomes[1..]))
  {
    assert Due(r, k, outcomes) == [QueueFull] + Due(r, k + 1, outcomes[1..]);
    NothingPushed(r, k, outcomes);
  }

  /** What a step asks of the action queue: nothing, unless it is a run of the timer. */
  predicate InOrder(r: Responder, step: Step) {
    step.Timer? ==> Orderly(Due(r, FirstUnqueued(r.queue, 0), step.outcomes))
  }

  // ---- Sending ----

  /** An action for a packet that is still queued always finds it at the head. */
  lemma LiveActionAtHead(r: Responder, k: nat)
    requires Consistent(r, k) && r.actions != []
    ensures HasId(r.queue, r.actions[0]) <==> AtHead(r, r.actions[0])
    ensures HasId(r.queue, r.actions[0]) ==> k > 0
  {
    if HasId(r.queue, r.actions[0]) {
      assert Live(r.actions, r.queue)[0] == r.actions[0];
      assert Ids(r.queue[..k])[0] == r.queue[0].id;
    }
  }

  lemma PoppedConsistent(r: Responder, k: nat)
    requires Consistent(r, k) && r.actions != [] && AtHead(r, r.actions[0])
    ensures k > 0
    ensures Consistent(r.(queue := r.queue[1..], actions := r.actions[1..]), k - 1)
    ensures !HasId(r.queue[1..], r.actions[0]) && r.actions[0] !in r.actions[1..]
  {
    var id, q, rest := r.actions[0], r.queue[1..], r.actions[1..];
    assert HasId(r.queue, id);
    assert Live(r.actions, r.queue) == [id] + Live(rest, r.queue);
    var front := r.queue[..k];
    assert Live(rest, r.queue) == Ids(front)[1..];
    LiveAll(rest, r.queue);
    assert id !in Ids(front)[1..] by {
      assert forall i | 1 <= i < k :: Ids(front)[i] == r.queue[i].id != r.queue[0].id;
    }
    forall a | a in rest ensures HasId(r.queue, a) <==> HasId(q, a) {
      TailIds(r.queue, a);
    }
    LiveSame(rest, r.queue, q);
    assert Ids(q[..k - 1]) == Ids(front)[1..];
  }

  lemma TailIds(q: seq<Packet>, id: nat)
    requires q != []
    ensures HasId(q, id) <==> id == q[0].id || HasId(q[1..], id)
  {
    if HasId(q, id) {
      var i :| 0 <= i < |q| && q[i].id == id;
      assert i > 0 ==> q[1..][i - 1].id == id;
    }
    if HasId(q[1..], id) {
      var i :| 0 <= i < |q[1..]| && q[1..][i].id == id;
      assert q[i + 1].id == id;
    }
  }

  // ---- Every reachable state ----

  lemma NewPacketConsistent(r: Responder, k: nat, p: Packet, ms: nat)
    requires Consistent(r, k) && p.id == r.nextId && !p.queued
    ensures Consistent(SentAfter(r.(nextId := r.nextId + 1), p, ms), k)
  {
    InsertConsistent(r.(nextId := r.nextId + 1), k, p, ms);
  }

  /** Neither the interface states nor a later clock matter to the queue. */
  lemma OnlyQueueMatters(r: Responder, k: nat, pcbs: map<nat, Pcb>, now: nat)
    requires Consistent(r, k) && now >= r.now
    ensures Consistent(r.(pcbs := pcbs, now := now), k)
  {
  }

  lemma RescheduledConsistent(r: Responder, k: nat, p: Packet, built: bool)
    requires Consistent(r, k) && !p.queued && p.id < r.nextId && !HasId(r.queue, p.id) && p.id !in r.actions
    ensures Consistent(Handled(r, p, built), k)
  {
    hide Consistent, Inserted, HasId;
    var s := PcbOf(r, p.iface).state;
    var sent := p.(sentAt := p.sentAt + [r.now]);
    var pcbs := Handled(r, p, built).pcbs;
    if s in {Probe1, Probe2} || (s == Probe3 && !built) {
      InsertConsistent(r, k, sent, PROBE_INTERVAL);
      OnlyQueueMatters(SentAfter(r, sent, PROBE_INTERVAL), k, pcbs, r.now);
    } else if s == Probe3 {
      var a := Packet(r.nextId, p.iface, 0, false, Announcement(sent.sentAt), []);
      NewPacketConsistent(r, k, a, PROBE_INTERVAL);
      OnlyQueueMatters(SentAfter(r.(nextId := r.nextId + 1), a, PROBE_INTERVAL), k, pcbs, r.now);
    } else if s in {Announce1, Announce2} {
      InsertConsistent(r, k, sent, ANNOUNCE_INTERVAL);
      OnlyQueueMatters(SentAfter(r, sent, ANNOUNCE_INTERVAL), k, pcbs, r.now);
    } else {
      OnlyQueueMatters(r, k, pcbs, r.now);
    }
  }

  lemma ActionConsistent(r: Responder, k: nat, built: bool) returns (k': nat)
    requires Consistent(r, k)
    ensures Consistent(ActionRun(r, built), k')
  {
    k' := k;
    if r.actions != [] {
      LiveActionAtHead(r, k);
      if AtHead(r, r.actions[0]) {
        PoppedConsistent(r, k);
        k' := k - 1;
        hide Consistent, Handled;
        RescheduledConsistent(r.(queue := r.queue[1..], actions := r.actions[1..]), k',
                              r.queue[0].(queued := false), built);
      } else {
        assert Live(r.actions, r.queue) == Live(r.actions[1..], r.queue);
      }
    }
  }

  lemma ProbeInitConsistent(r: Responder, k: nat, iface: nat, hasHost: bool, built: bool, jitter: nat) returns (k': nat)
    requires Consistent(r, k)
    ensures Consistent(ProbeInit(r, iface, hasHost, built, jitter), k')
  {
    k' := ClearedConsistent(r, k, iface);
    var cleared := r.(queue := Cleared(r.queue, iface));
    NewPacketConsistent(cleared, k', Packet(r.nextId, iface, 0, false, Probe, []),
                        ProbeDelay(PcbOf(r, iface).failedProbes, jitter));
    hide Ordered, Numbered, Live, Inserted, Cleared, ProbeDelay;
  }

  lemma AnnouncedConsistent(r: Responder, k: nat, iface: nat, hasHost: bool, built: bool, jitter: nat) returns (k': nat)
    requires Consistent(r, k)
    ensures Consistent(Announced(r, iface, hasHost, built, jitter), k')
  {
    hide Consistent, Inserted, ProbeInit, HasPacket;
    k' := k;
    var s, pcbs := PcbOf(r, iface).state, Announced(r, iface, hasHost, built, jitter).pcbs;
    if IsProbing(s) {
      k' := ProbeInitConsistent(r, k, iface, hasHost, built, jitter);
    } else if s == Running && hasHost && built {
      var p := Packet(r.nextId, iface, 0, false, Other, []);
      NewPacketConsistent(r, k, p, 0);
      OnlyQueueMatters(SentAfter(r.(nextId := r.nextId + 1), p, 0), k, pcbs, r.now);
    } else {
      OnlyQueueMatters(r, k, pcbs, r.now);
    }
  }

  lemma OtherStepConsistent(r: Responder, k: nat, step: Step) returns (k': nat)
    requires Consistent(r, k) && Possible(step) && !step.Timer?
    ensures Consistent(Next(r, step), k')
  {
    hide Consistent, Ordered, Inserted, Without, Cleared, HandedOver, Live, ActionRun, ProbeInit, Announced;
    k' := k;
    match step
    case Elapse(ms) => OnlyQueueMatters(r, k, r.pcbs, r.now + ms);
    case Action(built) => k' := ActionConsistent(r, k, built);
    case InitProbe(iface, hasHost, built, jitter) => k' := ProbeInitConsistent(r, k, iface, hasHost, built, jitter);
    case Announce(iface, hasHost, built, jitter) => k' := AnnouncedConsistent(r, k, iface, hasHost, built, jitter);
    case Respond(iface, share) =>
      NewPacketConsistent(r, k, Packet(r.nextId, iface, 0, false, Other, []), 25 + 25 * (share % 4));
    case FailProbe(iface) => OnlyQueueMatters(r, k, ProbeFailed(r, iface).pcbs, r.now);
    case Stop(iface, ready, s) =>
      var stopped := r;
      if ready {
        k' := ClearedConsistent(r, k, iface);
        stopped := r.(queue := Cleared(r.queue, iface));
      }
      OnlyQueueMatters(stopped, k', Stopped(r, iface, ready, s).pcbs, r.now);
    case RemoveService(drop, settled) =>
      k' := DroppedConsistent(r, k, drop);
      OnlyQueueMatters(r.(queue := Without(r.queue, drop)), k', ServiceRemoved(r, drop, settled).pcbs, r.now);
    case ClearAll =>
      k' := 0;
      EmptyConsistent(r, k);
  }

  /** Every step keeps the queue consistent, a run of the timer if and only if no
      attempt succeeds after one that found the action queue full. */
  lemma StepConsistentIff(r: Responder, step: Step)
    requires HoldsTogether(r) && Possible(step)
    ensures HoldsTogether(Next(r, step)) <==> InOrder(r, step)
  {
    var k :| Consistent(r, k);
    FirstUnqueuedIs(r.queue, k, r.now, 0);
    hide Consistent, Orderly;
    if step.Timer? {
      HandedOverConsistentIff(r, k, step.outcomes);
    } else {
      var k' := OtherStepConsistent(r, k, step);
    }
  }

  lemma DroppedConsistent(r: Responder, k: nat, drop: set<nat>) returns (k': nat)
    requires Consistent(r, k)
    ensures Consistent(r.(queue := Without(r.queue, drop)), k')
  {
    WithoutConsistent(r, k, drop);
    k' := |Without(r.queue[..k], drop)|;
  }

  lemma EmptyConsistent(r: Responder, k: nat)
    requires Consistent(r, k)
    ensures Consistent(r.(queue := []), 0)
  {
    NothingLive(r.actions);
  }

  lemma {:induction false} NothingLive(actions: seq<nat>)
    ensures Live(actions, []) == []
  {
    if actions != [] {
      NothingLive(actions[1..]);
    }
  }

  predicate Run(steps: seq<Step>) {
    forall i | 0 <= i < |steps| :: Possible(steps[i])
  }

  function After(steps: seq<Step>, n: nat): Responder
    requires Run(steps) && n <= |steps|
  {
    if n == 0 then FRESH else Next(After(steps, n - 1), steps[n - 1])
  }

  /** The states of a run up to the n-th are all consistent if and only if no run
      of the timer in it hands over a packet after it found the action queue
      full: the queue is then sorted, what has been handed over is a prefix of it,
      and the pending transmissions are that prefix in order. */
  lemma {:induction false} AlwaysConsistentIff(steps: seq<Step>, n: nat)
    requires Run(steps) && n <= |steps|
    ensures (forall m | 0 <= m <= n :: HoldsTogether(After(steps, m)))
            <==> forall m | 0 <= m < n :: InOrder(After(steps, m), steps[m])
  {
    hide HoldsTogether, InOrder, Next, After;
    if n == 0 {
      FreshHolds(steps);
    } else {
      AlwaysConsistentIff(steps, n - 1);
      AfterNext(steps, n - 1);
      if HoldsTogether(After(steps, n - 1)) {
        StepConsistentIff(After(steps, n - 1), steps[n - 1]);
      }
    }
  }

  lemma FreshHolds(steps: seq<Step>)
    requires Run(steps)
    ensures HoldsTogether(After(steps, 0))
  {
    assert Consistent(FRESH, 0);
  }

  lemma AfterNext(steps: seq<Step>, n: nat)
    requires Run(steps) && n < |steps|
    ensures After(steps, n + 1) == Next(After(steps, n), steps[n])
  {
    hide Next;
  }

  /** So a transmission is skipped only if its packet has been taken out of the queue. */
  lemma NeverSkipped(steps: seq<Step>, n: nat)
    requires Run(steps) && n <= |steps|
    requires forall m | 0 <= m < n :: InOrder(After(steps, m), steps[m])
    requires After(steps, n).actions != []
    ensures AtHead(After(steps, n), After(steps, n).actions[0])
            <==> HasId(After(steps, n).queue, After(steps, n).actions[0])
  {
    hide InOrder, After;
    AlwaysConsistentIff(steps, n);
    var r := After(steps, n);
    assert HoldsTogether(r);
    var k :| Consistent(r, k);
    hide Consistent;
    LiveActionAtHead(r, k);
  }

  // ---- What a disorderly run of the timer leads to ----

  /** The next pending transmission is of a packet that is queued, but is skipped. */
  predicate SkipsLive(r: Responder) {
    r.actions != [] && HasId(r.queue, r.actions[0]) && !AtHead(r, r.actions[0])
  }

  /** The service task works off pending transmissions, one for each entry of `built`. */
  function WorkedOff(r: Responder, built: seq<bool>): Responder
    decreases |built|
  {
    if built == [] then r else WorkedOff(ActionRun(r, built[0]), built[1..])
  }

  /** Packet i has been passed over, and the transmission of packet j behind it, numbered id, is pending. */
  predicate Overtaken(r: Responder, i: nat, j: nat, id: nat) {
    && DistinctIds(r.queue) && NumberedBelow(r.queue, r.nextId)
    && i < j < |r.queue| && !r.queue[i].queued && r.queue[j].id == id && id in r.actions
  }

  lemma InsertKeepsOrder(q: seq<Packet>, p: Packet, i: nat, j: nat) returns (i': nat, j': nat)
    requires i < j < |q|
    ensures i' < j' < |Inserted(q, p)| && Inserted(q, p)[i'] == q[i] && Inserted(q, p)[j'] == q[j]
  {
    var at := Position(q, p.sendAt, 0);
    i', j' := if i < at then i else i + 1, if j < at then j else j + 1;
    InsertedAt(q, p, i');
    InsertedAt(q, p, j');
  }

  /** Putting back a packet with another number keeps both in order. */
  lemma InsertKeepsOvertaken(r: Responder, i: nat, j: nat, id: nat, p: Packet, ms: nat) returns (i': nat, j': nat)
    requires Overtaken(r, i, j, id) && !HasId(r.queue, p.id) && p.id < r.nextId
    ensures Overtaken(SentAfter(r, p, ms), i', j', id)
  {
    hide Inserted, DistinctIds, NumberedBelow, HasId;
    var p' := p.(sendAt := r.now + ms);
    InsertKeepsDistinct(r.queue, p');
    InsertKeepsBelow(r.queue, p', r.nextId);
    i', j' := InsertKeepsOrder(r.queue, p', i, j);
  }

  /** Interface states do not matter, and numbers handed out do not disturb it. */
  lemma NumberKeepsOvertaken(r: Responder, i: nat, j: nat, id: nat, pcbs: map<nat, Pcb>, nextId: nat)
    requires Overtaken(r, i, j, id) && nextId >= r.nextId
    ensures Overtaken(r.(pcbs := pcbs, nextId := nextId), i, j, id)
  {
  }

  lemma SentKeepsOvertaken(r: Responder, i: nat, j: nat, id: nat, p: Packet, ms: nat, pcbs: map<nat, Pcb>)
    returns (i': nat, j': nat)
    requires Overtaken(r, i, j, id) && !HasId(r.queue, p.id) && p.id < r.nextId
    ensures Overtaken(SentAfter(r, p, ms).(pcbs := pcbs), i', j', id)
  {
    hide Overtaken, Inserted, HasId;
    i', j' := InsertKeepsOvertaken(r, i, j, id, p, ms);
    NumberKeepsOvertaken(SentAfter(r, p, ms), i', j', id, pcbs, r.nextId);
  }

  lemma NextIdIsNew(r: Responder, i: nat, j: nat, id: nat)
    requires Overtaken(r, i, j, id)
    ensures !HasId(r.queue, r.nextId)
  {
  }

  lemma AnnouncedKeepsOvertaken(r: Responder, i: nat, j: nat, id: nat, a: Packet, pcbs: map<nat, Pcb>)
    returns (i': nat, j': nat)
    requires Overtaken(r, i, j, id) && a.id == r.nextId
    ensures Overtaken(SentAfter(r.(nextId := r.nextId + 1), a, PROBE_INTERVAL).(pcbs := pcbs), i', j', id)
  {
    hide Overtaken, Inserted, HasId;
    NextIdIsNew(r, i, j, id);
    NumberKeepsOvertaken(r, i, j, id, r.pcbs, r.nextId + 1);
    i', j' := SentKeepsOvertaken(r.(nextId := r.nextId + 1), i, j, id, a, PROBE_INTERVAL, pcbs);
  }

  lemma HandledKeepsOvertaken(r: Responder, i: nat, j: nat, id: nat, p: Packet, built: bool) returns (i': nat, j': nat)
    requires Overtaken(r, i, j, id) && !HasId(r.queue, p.id) && p.id < r.nextId
    ensures Overtaken(Handled(r, p, built), i', j', id)
  {
    hide Overtaken, Inserted, HasId;
    var s, sent, pcbs := PcbOf(r, p.iface).state, p.(sentAt := p.sentAt + [r.now]), Handled(r, p, built).pcbs;
    if s in {Probe1, Probe2} || (s == Probe3 && !built) {
      i', j' := SentKeepsOvertaken(r, i, j, id, sent, PROBE_INTERVAL, pcbs);
    } else if s == Probe3 {
      var a := Packet(r.nextId, p.iface, 0, false, Announcement(sent.sentAt), []);
      i', j' := AnnouncedKeepsOvertaken(r, i, j, id, a, pcbs);
    } else if s in {Announce1, Announce2} {
      i', j' := SentKeepsOvertaken(r, i, j, id, sent, ANNOUNCE_INTERVAL, pcbs);
    } else {
      i', j' := i, j;
      NumberKeepsOvertaken(r, i, j, id, pcbs, r.nextId);
    }
  }

  /** The packet at the head, if it is sent, is neither of the two. */
  lemma PoppedKeepsOvertaken(r: Responder, i: nat, j: nat, id: nat)
    requires Overtaken(r, i, j, id) && r.actions[0] != id && AtHead(r, r.actions[0])
    ensures i > 0 && r.queue[0].id < r.nextId && !HasId(r.queue[1..], r.queue[0].id)
    ensures Overtaken(r.(queue := r.queue[1..], actions := r.actions[1..]), i - 1, j - 1, id)
  {
    assert forall k | 0 <= k < |r.queue| - 1 :: r.queue[1..][k] == r.queue[k + 1];
  }

  lemma SkippedKeepsOvertaken(r: Responder, i: nat, j: nat, id: nat)
    requires Overtaken(r, i, j, id) && r.actions[0] != id
    ensures Overtaken(r.(actions := r.actions[1..]), i, j, id)
  {
  }

  lemma HandledKeepsActions(r: Responder, p: Packet, built: bool)
    ensures Handled(r, p, built).actions == r.actions
  {
    hide Inserted;
  }

  lemma ActionKeepsOvertaken(r: Responder, i: nat, j: nat, id: nat, built: bool) returns (i': nat, j': nat)
    requires Overtaken(r, i, j, id) && r.actions[0] != id
    ensures Overtaken(ActionRun(r, built), i', j', id) && ActionRun(r, built).actions == r.actions[1..]
  {
    assert r.actions != [];
    hide Overtaken, HasId, Handled;
    if AtHead(r, r.actions[0]) {
      PoppedKeepsOvertaken(r, i, j, id);
      var popped, p := r.(queue := r.queue[1..], actions := r.actions[1..]), r.queue[0].(queued := false);
      i', j' := HandledKeepsOvertaken(popped, i - 1, j - 1, id, p, built);
      HandledKeepsActions(popped, p, built);
    } else {
      SkippedKeepsOvertaken(r, i, j, id);
      i', j' := i, j;
    }
  }

  lemma OvertakenIsSkipped(r: Responder, i: nat, j: nat, id: nat)
    requires Overtaken(r, i, j, id) && r.actions[0] == id
    ensures SkipsLive(r)
  {
  }

  /** Once a packet has been overtaken, the service task comes to a transmission it skips. */
  lemma {:induction false} OvertakenLeadsToSkip(r: Responder, i: nat, j: nat, id: nat, built: seq<bool>)
    returns (m: nat)
    requires Overtaken(r, i, j, id) && |built| >= |r.actions|
    ensures m < |built| && SkipsLive(WorkedOff(r, built[..m]))
    decreases |r.actions|
  {
    assert r.actions != [];
    hide Overtaken, SkipsLive, ActionRun;
    if r.actions[0] == id {
      m := 0;
      OvertakenIsSkipped(r, i, j, id);
    } else {
      var i', j' := ActionKeepsOvertaken(r, i, j, id, built[0]);
      var rest := OvertakenLeadsToSkip(ActionRun(r, built[0]), i', j', id, built[1..]);
      m := rest + 1;
      assert built[..m][0] == built[0] && built[..m][1..] == built[1..][..rest];
    }
  }

  /** The first packet that is refused and a later one that is not. */
  lemma FullThenPushedOvertakes(r: Responder, i: nat, outcomes: seq<Push>) returns (j: nat, id: nat)
    requires Numbered(r.queue, r.actions, r.nextId)
    requires i < |r.queue| && r.queue[i].sendAt < r.now && outcomes != [] && outcomes[0] == QueueFull
    requires Pushed in Due(r, i + 1, outcomes[1..])
    ensures Overtaken(HandedOver(r, i, outcomes), i, j, id)
  {
    var kept := r.(queue := r.queue[i := r.queue[i].(queued := false)]);
    SameAttempts(r.queue, kept.queue, r.now, i + 1, outcomes[1..]);
    j := PushedIsPending(kept, i + 1, outcomes[1..]);
    id := r.queue[j].id;
    FrontKept(kept, i + 1, outcomes[1..]);
    var after := HandedOver(kept, i + 1, outcomes[1..]);
    assert after.queue[..i + 1][i] == kept.queue[..i + 1][i];
    SameNumbers(kept, i + 1, outcomes[1..]);
    hide HandedOver, Attempts;
    forall k | 0 <= k < |after.queue| ensures after.queue[k].id == r.queue[k].id {
    }
  }

  /** Handing over changes marks only. */
  lemma {:induction false} SameNumbers(r: Responder, i: nat, outcomes: seq<Push>)
    requires i <= |r.queue|
    ensures var after := HandedOver(r, i, outcomes);
            && after.nextId == r.nextId && |after.queue| == |r.queue| && r.actions <= after.actions
            && forall k | 0 <= k < |r.queue| :: after.queue[k].id == r.queue[k].id
    decreases |r.queue| - i
  {
    if i < |r.queue| && r.queue[i].sendAt < r.now {
      var rest := if outcomes == [] then [] else outcomes[1..];
      SameNumbers(r.(queue := r.queue[i := r.queue[i].(queued := false)]), i + 1, rest);
      SameNumbers(r.(queue := r.queue[i := r.queue[i].(queued := true)], actions := r.actions + [r.queue[i].id]),
                  i + 1, rest);
    }
  }

  /** A successful attempt leaves its transmission pending. */
  lemma {:induction false} PushedIsPending(r: Responder, i: nat, outcomes: seq<Push>) returns (j: nat)
    requires i <= |r.queue| && Pushed in Due(r, i, outcomes)
    ensures i <= j < |r.queue| && r.queue[j].id in HandedOver(r, i, outcomes).actions
    decreases |r.queue| - i
  {
    var outcome, rest := if outcomes == [] then Pushed else outcomes[0], if outcomes == [] then [] else outcomes[1..];
    if outcome == Pushed {
      j := i;
      var marked := r.(queue := r.queue[i := r.queue[i].(queued := true)], actions := r.actions + [r.queue[i].id]);
      SameNumbers(marked, i + 1, rest);
      assert marked.actions[|r.actions|] == r.queue[i].id;
    } else {
      var kept := r.(queue := r.queue[i := r.queue[i].(queued := false)]);
      SameAttempts(r.queue, kept.queue, r.now, i + 1, rest);
      j := PushedIsPending(kept, i + 1, rest);
    }
  }

  lemma {:induction false} DisorderOvertakes(r: Responder, k: nat, outcomes: seq<Push>)
    returns (i: nat, j: nat, id: nat)
    requires Consistent(r, k) && !Orderly(Due(r, k, outcomes))
    ensures Overtaken(HandedOver(r, k, outcomes), i, j, id)
    decreases |r.queue| - k
  {
    assert k <= |r.queue| && Numbered(r.queue, r.actions, r.nextId);
    hide Consistent, Orderly, Numbered, Overtaken;
    if k == |r.queue| || r.queue[k].sendAt >= r.now || (outcomes != [] && outcomes[0] == NoMemory) {
      AtMostOneAttempt(r, k, outcomes);
      assert false;
    } else if outcomes == [] || outcomes[0] == Pushed {
      var rest := if outcomes == [] then [] else outcomes[1..];
      var marked := r.(queue := r.queue[k := r.queue[k].(queued := true)], actions := r.actions + [r.queue[k].id]);
      MarkedConsistent(r, k);
      SameAttempts(r.queue, marked.queue, r.now, k + 1, rest);
      OrderlyFrom(Pushed, Due(r, k + 1, rest));
      i, j, id := DisorderOvertakes(marked, k + 1, rest);
    } else {
      OrderlyFrom(QueueFull, Due(r, k + 1, outcomes[1..]));
      if Pushed !in Due(r, k + 1, outcomes[1..]) {
        FullForGood(r, k, outcomes);
      }
      i := k;
      j, id := FullThenPushedOvertakes(r, k, outcomes);
    }
  }

  lemma {:induction false} HeldTogetherSkipsNothing(r: Responder, built: seq<bool>, m: nat)
    requires HoldsTogether(r) && m <= |built|
    ensures HoldsTogether(WorkedOff(r, built[..m])) && !SkipsLive(WorkedOff(r, built[..m]))
    decreases m
  {
    var k :| Consistent(r, k);
    if m == 0 {
      if r.actions != [] {
        LiveActionAtHead(r, k);
      }
    } else {
      var k' := ActionConsistent(r, k, built[0]);
      hide Consistent, ActionRun, SkipsLive;
      assert HoldsTogether(ActionRun(r, built[0])) by {
        HoldsAt(ActionRun(r, built[0]), k');
      }
      HeldTogetherSkipsNothing(ActionRun(r, built[0]), built[1..], m - 1);
      assert built[..m][0] == built[0] && built[..m][1..] == built[1..][..m - 1];
    }
  }

  lemma HoldsAt(r: Responder, k: nat)
    requires Consistent(r, k)
    ensures HoldsTogether(r)
  {
  }

  /** A run of the timer leads the service task to skip a queued packet while it
      works off what is pending, whatever it builds, if and only if some attempt of
      that run succeeds after one that found the action queue full. */
  lemma SkipsIffDisorderly(r: Responder, outcomes: seq<Push>, built: seq<bool>)
    requires HoldsTogether(r) && |built| >= |TimerRun(r, outcomes).actions|
    ensures (exists m :: 0 <= m <= |built| && SkipsLive(WorkedOff(TimerRun(r, outcomes), built[..m])))
            <==> !InOrder(r, Timer(outcomes))
  {
    var k :| Consistent(r, k);
    FirstUnqueuedIs(r.queue, k, r.now, 0);
    hide Consistent, Orderly, Overtaken, SkipsLive;
    var after := TimerRun(r, outcomes);
    if InOrder(r, Timer(outcomes)) {
      HandedOverConsistentIff(r, k, outcomes);
      forall m | 0 <= m <= |built| ensures !SkipsLive(WorkedOff(after, built[..m])) {
        HeldTogetherSkipsNothing(after, built, m);
      }
    } else {
      var i, j, id := DisorderOvertakes(r, k, outcomes);
      var m := OvertakenLeadsToSkip(after, i, j, id, built);
    }
  }

  /** Two shared answers, a timer that finds the action queue full once, the service task, the timer again. */
  const OVERTAKING: seq<Step> :=
    [InitProbe(0, false, true, 0), Respond(0, 0), Respond(0, 0), Elapse(100),
     Timer([QueueFull]), Action(true), Timer([])]

  function Answer(id: nat, queued: bool): Packet { Packet(id, 0, 25, queued, Other, []) }

  function Answering(queue: seq<Packet>, actions: seq<nat>, now: nat): Responder {
    Responder(queue, actions, map[0 := Pcb(Running, 0)], now, 2)
  }

  lemma NothingProbed()
    ensures ProbeInit(FRESH, 0, false, true, 0) == Responder([], [], map[0 := Pcb(Running, 0)], 0, 0)
  {
  }

  lemma FirstAnswer()
    ensures Responded(Responder([], [], map[0 := Pcb(Running, 0)], 0, 0), 0, 0)
         == Responder([Answer(0, false)], [], map[0 := Pcb(Running, 0)], 0, 1)
  {
  }

  lemma SecondAnswer()
    ensures Responded(Responder([Answer(0, false)], [], map[0 := Pcb(Running, 0)], 0, 1), 0, 0)
         == Answering([Answer(0, false), Answer(1, false)], [], 0)
  {
    var one := [Answer(0, false)];
    assert Position(one, 25, 0) == 1;
    assert Inserted(one, Answer(1, false)) == [Answer(0, false), Answer(1, false)];
    hide Inserted;
  }

  lemma TwoAnswers()
    ensures After(OVERTAKING, 4) == Answering([Answer(0, false), Answer(1, false)], [], 100)
  {
    hide After, Responded, ProbeInit;
    assert After(OVERTAKING, 0) == FRESH by {
      NothingYet(OVERTAKING);
    }
    NothingProbed();
    FirstAnswer();
    SecondAnswer();
    AfterNext(OVERTAKING, 0);
    AfterNext(OVERTAKING, 1);
    AfterNext(OVERTAKING, 2);
    AfterNext(OVERTAKING, 3);
  }

  lemma NothingYet(steps: seq<Step>)
    requires Run(steps)
    ensures After(steps, 0) == FRESH
  {
  }

  /** The second of two due packets is handed over, or both are. */
  lemma SecondHandedOver(marked: bool)
    ensures var r := Answering([Answer(0, false), Answer(1, marked)], [], 100);
            && TimerRun(r, [QueueFull]) == Answering([Answer(0, false), Answer(1, true)], [1], 100)
            && TimerRun(r, []) == Answering([Answer(0, true), Answer(1, true)], [0, 1], 100)
  {
    var first, second := Answer(0, false), Answer(1, marked);
    var r := Answering([first, second], [], 100);
    assert FirstUnqueued(r.queue, 0) == 0;
    assert r.queue[0 := first] == r.queue && r.queue[1 := Answer(1, true)] == [first, Answer(1, true)];
    assert HandedOver(r, 0, [QueueFull]) == HandedOver(r, 1, []);
    var after := Answering([first, Answer(1, true)], [1], 100);
    assert HandedOver(r, 1, []) == HandedOver(after, 2, []);
    var one := Answering([Answer(0, true), second], [0], 100);
    assert r.queue[0 := Answer(0, true)] == one.queue;
    assert one.queue[1 := Answer(1, true)] == [Answer(0, true), Answer(1, true)];
    assert [] + [0] == [0] && r.actions + [r.queue[0].id] == one.actions;
    assert HandedOver(r, 0, []) == HandedOver(one, 1, []);
    var both := Answering([Answer(0, true), Answer(1, true)], [0, 1], 100);
    assert [0] + [1] == [0, 1];
    assert HandedOver(one, 1, []) == HandedOver(both, 2, []);
  }

  /** The condition is needed, in a run from the start: the first of two due packets
      is not handed over and the second is, so its transmission is skipped although
      it is queued; it stays marked, and the next run of the timer hands both over again. */
  lemma FullQueueSkipsLivePacket()
    ensures Run(OVERTAKING) && !InOrder(After(OVERTAKING, 4), OVERTAKING[4])
    ensures var handed := After(OVERTAKING, 5);
            handed.actions == [1] && HasId(handed.queue, 1) && !AtHead(handed, 1) && !HoldsTogether(handed)
    ensures var skipped := After(OVERTAKING, 6);
            skipped == After(OVERTAKING, 5).(actions := []) && !HoldsTogether(skipped)
    ensures After(OVERTAKING, 7).actions == [0, 1]
  {
    hide TimerRun, ActionRun, InOrder, HoldsTogether, After, AtHead, HasId;
    TwoAnswers();
    SecondHandedOver(false);
    SecondHandedOver(true);
    SecondOvertakes();
    SecondSkipped();
    AfterNext(OVERTAKING, 4);
    AfterNext(OVERTAKING, 5);
    AfterNext(OVERTAKING, 6);
  }

  lemma SecondSkipped()
    ensures var first, second := Answer(0, false), Answer(1, true);
            var handed, skipped := Answering([first, second], [1], 100), Answering([first, second], [], 100);
            && HasId(handed.queue, 1) && !AtHead(handed, 1) && ActionRun(handed, true) == skipped
            && !HoldsTogether(handed) && !HoldsTogether(skipped)
  {
    var first, second := Answer(0, false), Answer(1, true);
    var handed, skipped := Answering([first, second], [1], 100), Answering([first, second], [], 100);
    assert handed.queue[1].id == 1;
    PassedOver(handed, 0, 1);
    PassedOver(skipped, 0, 1);
    hide HoldsTogether;
  }

  lemma SecondOvertakes()
    ensures var r := Answering([Answer(0, false), Answer(1, false)], [], 100); !InOrder(r, Timer([QueueFull]))
  {
    var r := Answering([Answer(0, false), Answer(1, false)], [], 100);
    assert FirstUnqueued(r.queue, 0) == 0;
    assert Due(r, 1, []) == [Pushed] + Due(r, 2, []);
    assert Due(r, 0, [QueueFull]) == [QueueFull] + Due(r, 1, []);
    OrderlyFrom(QueueFull, Due(r, 1, []));
  }
}
