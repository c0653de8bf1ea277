/** What the name reader reads: the labels of uncompressed and compressed names,
    within its buffers, and the names services go by. */
module MdnsNameReading {
  import opened Bytes
  import opened MdnsName
  import opened Wrappers

  // ---- Uncompressed and compressed names ----

  predicate IsLabel(l: seq<byte>) { 1 <= |l| <= 63 }

  predicate AreLabels(ls: seq<seq<byte>>) {
    forall i | 0 <= i < |ls| :: IsLabel(ls[i])
  }

  /** Labels as a name is written out, section 3.1 of RFC 1035, without its end. */
  function Encoded(labels: seq<seq<byte>>): seq<byte>
    requires AreLabels(labels)
    decreases |labels|
  {
    if labels == [] then [] else [|labels[0]|] + labels[0] + Encoded(labels[1..])
  }

  function Items(labels: seq<seq<byte>>): (r: seq<Item>)
    ensures |r| == |labels|
  {
    seq(|labels|, i requires 0 <= i < |labels| => Label(labels[i]))
  }

  predicate Holds(packet: seq<byte>, at: nat, bytes: seq<byte>) {
    bytes == [] || (at + |bytes| <= |packet| && packet[at..at + |bytes|] == bytes)
  }

  lemma HoldsParts(packet: seq<byte>, at: nat, x: seq<byte>, y: seq<byte>)
    requires Holds(packet, at, x + y)
    ensures Holds(packet, at, x) && Holds(packet, at + |x|, y)
  {
    if x + y == [] {
      return;
    }
    var whole := packet[at..at + |x + y|];
    assert whole[..|x|] == x && whole[|x|..] == y;
    assert packet[at..at + |x|] == whole[..|x|] && packet[at + |x|..at + |x| + |y|] == whole[|x|..];
  }

  lemma FirstEncoded(first: seq<byte>, others: seq<seq<byte>>)
    requires IsLabel(first) && AreLabels(others)
    ensures Encoded([first] + others) == [|first|] + first + Encoded(others)
  {
    assert ([first] + others)[1..] == others;
  }

  lemma OneLabelRead(packet: seq<byte>, start: nat, at: nat, first: seq<byte>, depth: nat)
    requires IsLabel(first) && Holds(packet, at, [|first|] + first)
    ensures var rest := Expand(packet, start, at + 1 + |first|, depth);
            Expand(packet, start, at, depth) == Expansion([Label(first)] + rest.items, rest.next)
  {
    HoldsParts(packet, at, [|first|], first);
    assert packet[at..at + 1][0] == packet[at];
    assert packet[at + 1..at + 1 + |first|] == first;
  }

  lemma NoneEncoded()
    ensures Encoded([]) == []
  {
  }

  lemma FirstItems(first: seq<byte>, others: seq<seq<byte>>)
    ensures Items([first] + others) == [Label(first)] + Items(others)
  {
  }

  /** Written-out labels are read one by one, wherever they stand and whatever follows. */
  lemma {:induction false} LabelsRead(packet: seq<byte>, start: nat, at: nat, labels: seq<seq<byte>>, depth: nat)
    requires AreLabels(labels) && Holds(packet, at, Encoded(labels))
    ensures var rest := Expand(packet, start, at + |Encoded(labels)|, depth);
            Expand(packet, start, at, depth) == Expansion(Items(labels) + rest.items, rest.next)
    decreases |labels|
  {
    hide Expand, Holds, Encoded, Items;
    var rest := Expand(packet, start, at + |Encoded(labels)|, depth);
    if labels == [] {
      NoneEncoded();
      assert Items([]) + rest.items == rest.items;
    } else {
      var first, others := labels[0], labels[1..];
      assert labels == [first] + others;
      FirstEncoded(first, others);
      HoldsParts(packet, at, [|first|] + first, Encoded(others));
      OneLabelRead(packet, start, at, first, depth);
      LabelsRead(packet, start, at + 1 + |first|, others, depth);
      FirstItems(first, others);
      assert [Label(first)] + (Items(others) + rest.items) == Items(labels) + rest.items;
    }
  }

  function PointerTo(target: nat): (r: seq<byte>)
    requires target < 0x4000
    ensures |r| == 2 && r[0] >= 0xC0 && PointerTarget(r[0], r[1]) == target
  {
    [0xC0 + target / 256, target % 256]
  }

  /** A name as it may lie in a packet: written out to its end, or some labels
      followed by a pointer to the rest of it. */
  datatype Chain =
    | Last(labels: seq<seq<byte>>)
    | Link(labels: seq<seq<byte>>, target: nat, rest: Chain)

  predicate AtEnd(packet: seq<byte>, at: nat) { at >= |packet| || packet[at] == 0 }

  /** The chain stands in the packet from `at` on, in a stretch that began at
      `start`; every pointer leads before the stretch it is in. */
  predicate Written(packet: seq<byte>, start: nat, at: nat, chain: Chain) {
    && AreLabels(chain.labels)
    && match chain
       case Last(labels) => Holds(packet, at, Encoded(labels)) && AtEnd(packet, at + |Encoded(labels)|)
       case Link(labels, target, rest) =>
         && target < start && target < 0x4000
         && Holds(packet, at, Encoded(labels) + PointerTo(target)) && Written(packet, target, target, rest)
  }

  function Links(chain: Chain): nat {
    if chain.Last? then 0 else 1 + Links(chain.rest)
  }

  function AllLabels(chain: Chain): seq<seq<byte>> {
    if chain.Last? then chain.labels else chain.labels + AllLabels(chain.rest)
  }

  function ItemsOf(chain: Chain): seq<Item> {
    if chain.Last? then Items(chain.labels) else Items(chain.labels) + [Other] + ItemsOf(chain.rest)
  }

  /** The position behind the first stretch of a chain. */
  function Behind(at: nat, chain: Chain): nat
    requires AreLabels(chain.labels)
  {
    at + |Encoded(chain.labels)| + if chain.Last? then 1 else 2
  }

  lemma LastRead(packet: seq<byte>, start: nat, at: nat, labels: seq<seq<byte>>, depth: nat)
    requires Written(packet, start, at, Last(labels))
    ensures Expand(packet, start, at, depth) == Expansion(Items(labels), Some(Behind(at, Last(labels))))
  {
    LabelsRead(packet, start, at, labels, depth);
    assert Items(labels) + [] == Items(labels);
  }

  lemma PointerRead(packet: seq<byte>, start: nat, at: nat, target: nat, depth: nat)
    requires target < start && target < 0x4000 && Holds(packet, at, PointerTo(target))
    ensures depth >= 16 ==> Expand(packet, start, at, depth) == Expansion([Other], None)
    ensures depth < 16 ==>
              var rest := Expand(packet, target, target, depth + 1);
              Expand(packet, start, at, depth)
                == Expansion([Other] + rest.items, if rest.next.Some? then Some(at + 2) else None)
  {
    assert packet[at..at + 2][0] == packet[at] && packet[at..at + 2][1] == packet[at + 1];
    hide PointerTo, PointerTarget;
  }

  lemma LinkRead(packet: seq<byte>, start: nat, at: nat, chain: Chain, depth: nat)
    requires chain.Link? && Written(packet, start, at, chain)
    ensures depth >= 16 ==> Expand(packet, start, at, depth).next.None?
    ensures depth < 16 ==>
              var rest := Expand(packet, chain.target, chain.target, depth + 1);
              Expand(packet, start, at, depth)
                == Expansion(Items(chain.labels) + [Other] + rest.items,
                             if rest.next.Some? then Some(Behind(at, chain)) else None)
  {
    hide Expand, Holds, PointerTo, Encoded, Items, AreLabels;
    HoldsParts(packet, at, Encoded(chain.labels), PointerTo(chain.target));
    LabelsRead(packet, start, at, chain.labels, depth);
    PointerRead(packet, start, at + |Encoded(chain.labels)|, chain.target, depth);
    var rest := Expand(packet, chain.target, chain.target, depth + 1);
    assert Items(chain.labels) + ([Other] + rest.items) == Items(chain.labels) + [Other] + rest.items;
  }

  /** A chain is read to its end if and only if it has no more pointers than may be
      followed, and then as the items of all its stretches. */
  lemma {:induction false} ChainRead(packet: seq<byte>, start: nat, at: nat, chain: Chain, depth: nat)
    requires depth <= 16 && Written(packet, start, at, chain)
    ensures Expand(packet, start, at, depth).next.Some? <==> depth + Links(chain) <= 16
    ensures depth + Links(chain) <= 16 ==>
              Expand(packet, start, at, depth) == Expansion(ItemsOf(chain), Some(Behind(at, chain)))
    decreases chain
  {
    hide Expand, Holds, Behind, Items;
    if chain.Last? {
      LastRead(packet, start, at, chain.labels, depth);
    } else {
      LinkRead(packet, start, at, chain, depth);
      if depth < 16 {
        ChainRead(packet, chain.target, chain.target, chain.rest, depth + 1);
      }
    }
  }

  lemma OneMoreLabel(packet: seq<byte>, start: nat, at: nat, chain: Chain) returns (longer: Chain)
    requires at < |packet| && 1 <= packet[at] <= 63 && at + 1 + packet[at] <= |packet|
    requires Written(packet, start, at + 1 + packet[at], chain)
    ensures Written(packet, start, at, longer) && Links(longer) == Links(chain)
  {
    var first := packet[at + 1..at + 1 + packet[at]];
    var labels := [first] + chain.labels;
    longer := chain.(labels := labels);
    assert labels[1..] == chain.labels && Encoded(labels) == [|first|] + first + Encoded(chain.labels);
    var tail := Encoded(chain.labels) + if chain.Last? then [] else PointerTo(chain.target);
    assert Encoded(chain.labels) + [] == Encoded(chain.labels);
    assert Holds(packet, at + 1 + |first|, tail);
    OneMoreHeld(packet, at, first, tail);
    assert Encoded(labels) + (if chain.Last? then [] else PointerTo(chain.target)) == [|first|] + first + tail;
    assert Encoded(labels) + [] == Encoded(labels);
    hide Holds, PointerTo, Encoded;
  }

  lemma OneMoreHeld(packet: seq<byte>, at: nat, first: seq<byte>, tail: seq<byte>)
    requires |first| <= 63 && at < |packet| && packet[at] == |first| && at + 1 + |first| <= |packet|
    requires first == packet[at + 1..at + 1 + |first|] && Holds(packet, at + 1 + |first|, tail)
    ensures Holds(packet, at, [|first|] + first + tail)
  {
    var end := at + 1 + |first| + |tail|;
    assert packet[at..end] == [packet[at]] + packet[at + 1..at + 1 + |first|] + packet[at + 1 + |first|..end];
  }

  /** Whatever is read to its end stands in the packet as a chain. */
  lemma {:induction false} ReadIsWritten(packet: seq<byte>, start: nat, at: nat, depth: nat) returns (chain: Chain)
    requires depth <= 16 && Expand(packet, start, at, depth).next.Some?
    ensures Written(packet, start, at, chain) && depth + Links(chain) <= 16
    decreases start, |packet| - at
  {
    hide Written, PointerTarget;
    if AtEnd(packet, at) {
      NothingWritten(packet, start, at);
      chain := Last([]);
    } else if packet[at] < 0xC0 {
      chain := ReadIsWritten(packet, start, at + 1 + packet[at], depth);
      chain := OneMoreLabel(packet, start, at, chain);
    } else {
      var target := PointerTarget(packet[at], packet[at + 1]);
      var rest := ReadIsWritten(packet, target, target, depth + 1);
      PointerWritten(packet, start, at, rest);
      chain := Link([], target, rest);
    }
  }

  lemma NothingWritten(packet: seq<byte>, start: nat, at: nat)
    requires AtEnd(packet, at)
    ensures Written(packet, start, at, Last([]))
  {
  }

  lemma PointerWritten(packet: seq<byte>, start: nat, at: nat, rest: Chain)
    requires at + 1 < |packet| && packet[at] >= 0xC0 && PointerTarget(packet[at], packet[at + 1]) < start
    requires var target := PointerTarget(packet[at], packet[at + 1]); Written(packet, target, target, rest)
    ensures Written(packet, start, at, Link([], PointerTarget(packet[at], packet[at + 1]), rest))
  {
    var target := PointerTarget(packet[at], packet[at + 1]);
    PointerWrittenBack(packet[at], packet[at + 1]);
    hide PointerTo, PointerTarget;
    assert packet[at..at + 2] == [packet[at], packet[at + 1]];
    assert Encoded([]) + PointerTo(target) == PointerTo(target);
    hide Written;
    LinkWritten(packet, start, at, [], target, rest);
  }

  lemma PointerWrittenBack(high: byte, low: byte)
    requires high >= 0xC0
    ensures PointerTarget(high, low) < 0x4000 && PointerTo(PointerTarget(high, low)) == [high, low]
  {
    assert high % 64 == high - 0xC0;
  }

  lemma LinkWritten(packet: seq<byte>, start: nat, at: nat, labels: seq<seq<byte>>, target: nat, rest: Chain)
    requires target < start && target < 0x4000 && AreLabels(labels)
    requires Holds(packet, at, Encoded(labels) + PointerTo(target)) && Written(packet, target, target, rest)
    ensures Written(packet, start, at, Link(labels, target, rest))
  {
    hide Holds, PointerTo, Encoded;
  }

  /** A name is read to its end exactly if it stands in the packet with its pointers
      leading backwards, 16 of them at most. */
  lemma ReadIffWritten(packet: seq<byte>, start: nat)
    ensures Expand(packet, start, start, 0).next.Some?
            <==> exists chain :: Written(packet, start, start, chain) && Links(chain) <= 16
  {
    hide Expand, Written, Links;
    if Expand(packet, start, start, 0).next.Some? {
      var chain := ReadIsWritten(packet, start, start, 0);
    }
    forall chain | Written(packet, start, start, chain) && Links(chain) <= 16
      ensures Expand(packet, start, start, 0).next.Some?
    {
      ChainRead(packet, start, start, chain, 0);
    }
  }

  lemma {:induction false} LabelsOfAppend(x: seq<Item>, y: seq<Item>)
    ensures LabelsOf(x + y) == LabelsOf(x) + LabelsOf(y)
  {
    if y == [] {
      assert x + y == x;
    } else {
      assert (x + y)[..|x + y| - 1] == x + y[..|y| - 1];
      LabelsOfAppend(x, y[..|y| - 1]);
    }
  }

  lemma {:induction false} LabelsOfItems(labels: seq<seq<byte>>)
    ensures LabelsOf(Items(labels)) == labels
  {
    if labels != [] {
      var n := |labels| - 1;
      assert Items(labels)[..n] == Items(labels[..n]);
      LabelsOfItems(labels[..n]);
    }
  }

  lemma {:induction false} LabelsOfChain(chain: Chain)
    ensures LabelsOf(ItemsOf(chain)) == AllLabels(chain)
  {
    LabelsOfItems(chain.labels);
    if chain.Link? {
      LabelsOfChain(chain.rest);
      LabelsOfAppend(Items(chain.labels) + [Other], ItemsOf(chain.rest));
      LabelsOfAppend(Items(chain.labels), [Other]);
      assert LabelsOf([Other]) == [] by {
        assert [Other][..0] == [];
      }
      assert chain.labels + [] == chain.labels;
    }
  }

  /** Compression is invisible: a name of any number of stretches up to 16 pointers
      reads as the same list of labels as the whole name written out. */
  lemma CompressionInvisible(packet: seq<byte>, start: nat, chain: Chain)
    requires Written(packet, start, start, chain) && Links(chain) <= 16
    ensures LabelsOf(Expand(packet, start, start, 0).items) == AllLabels(chain)
    ensures Expand(packet, start, start, 0).next == Some(Behind(start, chain))
  {
    assert AreLabels(chain.labels);
    hide Expand, Written, ItemsOf;
    ChainRead(packet, start, start, chain, 0);
    LabelsOfChain(chain);
  }

  // ---- Pointers ----

  function Pointers(items: seq<Item>): nat
    decreases |items|
  {
    if items == [] then 0 else (if items[0].Other? then 1 else 0) + Pointers(items[1..])
  }

  /** A name that is read to its end follows at most 16 pointers. */
  lemma {:induction false} FewPointers(packet: seq<byte>, start: nat, at: nat, depth: nat)
    requires depth <= 16
    ensures Expand(packet, start, at, depth).next.Some? ==>
              depth + Pointers(Expand(packet, start, at, depth).items) <= 16
    decreases start, |packet| - at
  {
    var e := Expand(packet, start, at, depth);
    if at < |packet| && packet[at] != 0 && e.next.Some? {
      if packet[at] < 0xC0 {
        FewPointers(packet, start, at + 1 + packet[at], depth);
      } else {
        var target := PointerTarget(packet[at], packet[at + 1]);
        FewPointers(packet, target, target, depth + 1);
      }
      assert e.items == [e.items[0]] + e.items[1..];
    }
  }

  // ---- Buffers ----

  predicate IsText(s: CString) {
    |s| < 65 && 0 !in s
  }

  predicate Fits(n: Name) {
    n.parts <= 4 && IsText(n.host) && IsText(n.service) && IsText(n.proto) && IsText(n.domain)
  }

  lemma {:induction false} NoZero(s: seq<byte>)
    ensures 0 !in UpToZero(s)
  {
    if s != [] && s[0] != 0 {
      NoZero(s[1..]);
    }
  }

  lemma {:induction false} LabelsFit(packet: seq<byte>, start: nat, at: nat, depth: nat)
    ensures forall i | i in Expand(packet, start, at, depth).items :: i.Label? ==> IsLabel(i.bytes)
    decreases start, |packet| - at
  {
    if at < |packet| && packet[at] != 0 {
      if packet[at] < 0xC0 {
        if packet[at] <= 63 && at + 1 + packet[at] <= |packet| {
          LabelsFit(packet, start, at + 1 + packet[at], depth);
        }
      } else if at + 1 < |packet| {
        var target := PointerTarget(packet[at], packet[at + 1]);
        if target < start && depth < 16 {
          LabelsFit(packet, target, target, depth + 1);
        }
      }
    }
  }

  lemma ItemKeepsFit(n: Name, item: Item)
    requires Fits(n) && (item.Label? ==> IsLabel(item.bytes))
    ensures Fits(WithItem(n, item))
  {
    if item.Label? {
      NoZero(item.bytes);
    }
    hide UpToZero, SameIgnoringCase;
  }

  lemma {:induction false} ItemsKeepFit(n: Name, items: seq<Item>)
    requires Fits(n) && forall i | i in items :: i.Label? ==> IsLabel(i.bytes)
    ensures Fits(WithItems(n, items))
    decreases |items|
  {
    if items != [] {
      hide WithItem, Fits;
      ItemKeepsFit(n, items[0]);
      ItemsKeepFit(WithItem(n, items[0]), items[1..]);
    }
  }

  /** Whatever the packet, parsing stores at most four parts, and every string
      fits its buffer with its terminator. */
  lemma ParsedFits(packet: seq<byte>, start: nat)
    ensures Fits(Parsed(packet, start).0)
  {
    LabelsFit(packet, start, start, 0);
    ItemsKeepFit(BLANK, Expand(packet, start, start, 0).items);
    hide Expand, WithItems;
  }

  // ---- The name as a fold over its labels ----

  lemma {:induction false} WithItemsLast(n: Name, items: seq<Item>, last: Item)
    ensures WithItems(n, items + [last]) == WithItem(WithItems(n, items), last)
    decreases |items|
  {
    if items == [] {
      assert [] + [last] == [last] && [last][1..] == [];
    } else {
      assert (items + [last])[1..] == items[1..] + [last];
      WithItemsLast(WithItem(n, items[0]), items[1..], last);
    }
  }

  lemma {:induction false} WithLabelsLast(n: Name, labels: seq<seq<byte>>, last: seq<byte>)
    ensures WithLabels(n, labels + [last]) == WithLabel(WithLabels(n, labels), last)
    decreases |labels|
  {
    if labels == [] {
      assert [] + [last] == [last] && [last][1..] == [];
    } else {
      assert (labels + [last])[1..] == labels[1..] + [last];
      WithLabelsLast(WithLabel(n, labels[0]), labels[1..], last);
    }
  }

  /** A fourth part has just been stored and nothing but pointers follows. */
  predicate PointerAfterFourthPart(n: Name, items: seq<Item>) {
    items != [] && items[|items| - 1].Other? && n.parts == 4 && !n.invalid
  }

  lemma {:induction false} FoldOrMarked(items: seq<Item>)
    ensures var n := WithLabels(BLANK, LabelsOf(items));
            WithItems(BLANK, items) == if PointerAfterFourthPart(n, items) then n.(invalid := true) else n
  {
    if items != [] {
      var k := |items| - 1;
      var front, last := items[..k], items[k];
      assert items == front + [last];
      FoldOrMarked(front);
      WithItemsLast(BLANK, front, last);
      if last.Label? {
        WithLabelsLast(BLANK, LabelsOf(front), last.bytes);
        LabelIgnoresMark(WithLabels(BLANK, LabelsOf(front)), last.bytes);
      } else {
        assert LabelsOf(items) == LabelsOf(front) + [] == LabelsOf(front);
      }
    }
  }

  lemma LabelIgnoresMark(n: Name, bytes: seq<byte>)
    ensures n.parts == 4 ==> WithLabel(n.(invalid := true), bytes) == WithLabel(n, bytes)
  {
  }

  // ---- Service names ----

  /** A label that is stored as it is: no zero byte, not the subtype marker. */
  predicate IsPlain(l: seq<byte>) {
    IsLabel(l) && 0 !in l && !SameIgnoringCase(l, SUB)
  }

  lemma {:induction false} PlainText(l: seq<byte>)
    requires 0 !in l
    ensures UpToZero(l) == l
  {
    if l != [] {
      PlainText(l[1..]);
    }
  }

  lemma ThreeLabels(n: Name, a: seq<byte>, b: seq<byte>, c: seq<byte>)
    ensures WithLabels(n, [a, b, c]) == WithLabel(WithLabel(WithLabel(n, a), b), c)
  {
    hide WithLabel;
    WithLabelsLast(n, [], a);
    WithLabelsLast(n, [a], b);
    WithLabelsLast(n, [a, b], c);
    assert [] + [a] == [a] && [a] + [b] == [a, b] && [a, b] + [c] == [a, b, c];
  }

  /** instance._service._proto.local and _service._proto.local come out part by part. */
  lemma ServiceNamesParsed(inst: seq<byte>, service: seq<byte>, proto: seq<byte>)
    requires IsPlain(inst) && IsPlain(service) && IsPlain(proto)
    requires service[0] == UNDERSCORE && proto[0] == UNDERSCORE
    ensures Arranged(WithLabels(BLANK, [inst, service, proto, LOCAL]))
         == Name(4, false, inst, service, proto, LOCAL, false)
    ensures Arranged(WithLabels(BLANK, [service, proto, LOCAL])) == Name(3, false, [], service, proto, LOCAL, false)
  {
    PlainText(inst);
    PlainText(service);
    PlainText(proto);
    PlainText(LOCAL);
    ThreeLabels(BLANK, inst, service, proto);
    WithLabelsLast(BLANK, [inst, service, proto], LOCAL);
    assert [inst, service, proto] + [LOCAL] == [inst, service, proto, LOCAL];
    ThreeLabels(BLANK, service, proto, LOCAL);
    assert LOCAL[0] != SUB[0] && Lower(LOCAL[0]) != Lower(SUB[0]);
    hide UpToZero;
    var four := Name(4, false, inst, service, proto, LOCAL, false);
    assert WithLabel(Name(1, false, inst, [], [], [], false), service) == Name(2, false, inst, service, [], [], false);
    assert WithLabel(Name(3, false, inst, service, proto, [], false), LOCAL) == four;
    assert WithLabel(Name(1, false, service, [], [], [], false), proto)
        == Name(2, false, service, proto, [], [], false);
  }

  lemma LocalIsNotSub()
    ensures UpToZero(LOCAL) == LOCAL && UpToZero(SUB) == SUB
    ensures !SameIgnoringCase(LOCAL, SUB) && SameIgnoringCase(LOCAL, LOCAL) && SameIgnoringCase(SUB, SUB)
    ensures !ExtendsHost(LOCAL) && !ExtendsHost(SUB)
  {
    PlainText(LOCAL);
    PlainText(SUB);
    assert LOCAL[0] != SUB[0] && Lower(LOCAL[0]) != Lower(SUB[0]);
  }

  /** host.local keeps its host, and a host of two labels is joined again with a dot. */
  lemma HostNamesParsed(host: seq<byte>, second: seq<byte>)
    requires IsPlain(host) && IsPlain(second) && ExtendsHost(second)
    ensures Arranged(WithLabels(BLANK, [host, LOCAL])) == Name(2, false, host, [], [], LOCAL, false)
    ensures |host| + |second| < 65 - 1 ==>
              Arranged(WithLabels(BLANK, [host, second, LOCAL]))
                == Name(2, false, host + [DOT] + second, [], [], LOCAL, false)
  {
    PlainText(host);
    PlainText(second);
    LocalIsNotSub();
    WithLabelsLast(BLANK, [host], LOCAL);
    WithLabelsLast(BLANK, [], host);
    assert [] + [host] == [host] && [host] + [LOCAL] == [host, LOCAL];
    ThreeLabels(BLANK, host, second, LOCAL);
    hide UpToZero, SameIgnoringCase, ExtendsHost, WithLabels;
    assert WithLabel(BLANK, host) == Name(1, false, host, [], [], [], false);
  }

  /** A subtype query, name._sub._service._proto.local, is told apart and otherwise read like an instance name. */
  lemma SubtypeParsed(name: seq<byte>, service: seq<byte>, proto: seq<byte>)
    requires IsPlain(name) && IsPlain(service) && IsPlain(proto)
    requires service[0] == UNDERSCORE && proto[0] == UNDERSCORE
    ensures Arranged(WithLabels(BLANK, [name, SUB, service, proto, LOCAL]))
         == Name(4, true, name, service, proto, LOCAL, false)
  {
    PlainText(name);
    PlainText(service);
    PlainText(proto);
    LocalIsNotSub();
    ThreeLabels(BLANK, name, SUB, service);
    WithLabelsLast(BLANK, [name, SUB, service], proto);
    WithLabelsLast(BLANK, [name, SUB, service, proto], LOCAL);
    assert [name, SUB, service] + [proto] == [name, SUB, service, proto];
    assert [name, SUB, service, proto] + [LOCAL] == [name, SUB, service, proto, LOCAL];
    assert !ExtendsHost(service);
    hide UpToZero, SameIgnoringCase, ExtendsHost, WithLabels;
    var one := Name(1, true, name, [], [], [], false);
    assert WithLabel(WithLabel(BLANK, name), SUB) == one;
    assert WithLabel(one, service) == Name(2, true, name, service, [], [], false);
  }

  // ---- Packets with a name that is marked without a further label ----

  /** The last pointer of the chain leads to the end of a name. */
  predicate EndsInPointerToNothing(chain: Chain) {
    chain.Link? && (chain.rest == Last([]) || EndsInPointerToNothing(chain.rest))
  }

  lemma {:induction false} LastItem(chain: Chain)
    ensures ItemsOf(chain) == [] <==> chain == Last([])
    ensures EndsInPointerToNothing(chain) <==> ItemsOf(chain) != [] && ItemsOf(chain)[|ItemsOf(chain)| - 1].Other?
  {
    if chain.Link? {
      LastItem(chain.rest);
    }
  }

  /** The name that is read is the fold of the label rule over its labels, and the
      parsed name is its arrangement, exactly unless it is complete with four parts
      and ends in a pointer to nothing: then it is marked although no label follows. */
  lemma NameIsFoldOfLabels(packet: seq<byte>, start: nat, chain: Chain)
    requires Written(packet, start, start, chain) && Links(chain) <= 16
    ensures var n := WithLabels(BLANK, AllLabels(chain));
            && WithItems(BLANK, Expand(packet, start, start, 0).items)
               == (if EndsInPointerToNothing(chain) && n.parts == 4 && !n.invalid then n.(invalid := true) else n)
            && (Parsed(packet, start).0 == Arranged(n)
                <==> !(EndsInPointerToNothing(chain) && n.parts == 4 && !Arranged(n).invalid))
  {
    hide Expand, Written, ItemsOf, EndsInPointerToNothing, WithItems, WithLabels, LabelsOf, Arranged;
    ChainRead(packet, start, start, chain, 0);
    LabelsOfChain(chain);
    LastItem(chain);
    FoldOrMarked(ItemsOf(chain));
    var n := WithLabels(BLANK, AllLabels(chain));
    if n.parts == 4 {
      ArrangedMark(n);
    }
  }

  lemma ArrangedMark(n: Name)
    requires n.parts == 4
    ensures n.invalid ==> Arranged(n).invalid
    ensures Arranged(n.(invalid := true)) == n.(invalid := true)
    ensures Arranged(n) == if Arranged(n).invalid then n.(invalid := true) else n
  {
    hide SameIgnoringCase;
  }

  /** The labels a, _b, _c and local, and how they are written out. */
  const FOUR_PARTS: seq<seq<byte>> := [[97], [95, 98], [95, 99], LOCAL]
  const FOUR_PARTS_BYTES: seq<byte> := [1, 97, 2, 95, 98, 2, 95, 99, 5] + LOCAL

  /** Such a packet: an empty name at its start, then a._b._c.local with a pointer back to it. */
  const NAME_ENDING_EMPTY: seq<byte> := [0] + (FOUR_PARTS_BYTES + [0xC0, 0])

  lemma FourPartsEncoded()
    ensures AreLabels(FOUR_PARTS)
    ensures Encoded(FOUR_PARTS) == FOUR_PARTS_BYTES
  {
    hide Encoded;
    var a, b, c := [97], [95, 98], [95, 99];
    NoneEncoded();
    FirstEncoded(LOCAL, []);
    FirstEncoded(c, [LOCAL]);
    FirstEncoded(b, [c, LOCAL]);
    FirstEncoded(a, [b, c, LOCAL]);
    assert [LOCAL] + [] == [LOCAL] && [c] + [LOCAL] == [c, LOCAL] && [b] + [c, LOCAL] == [b, c, LOCAL];
    assert [a] + [b, c, LOCAL] == FOUR_PARTS;
    assert Encoded([LOCAL]) == [5] + LOCAL;
  }

  lemma HeldBehind(first: byte, bytes: seq<byte>)
    ensures Holds([first] + bytes, 1, bytes)
  {
  }

  lemma PointerToNothingWritten()
    ensures Written(NAME_ENDING_EMPTY, 1, 1, Link(FOUR_PARTS, 0, Last([]))) && |Encoded(FOUR_PARTS)| == 14
  {
    hide Encoded, Holds, Written, PointerTo;
    FourPartsEncoded();
    assert PointerTo(0) == [0xC0, 0] by {
      PointerWrittenBack(0xC0, 0);
    }
    HeldBehind(0, FOUR_PARTS_BYTES + [0xC0, 0]);
    NothingWritten(NAME_ENDING_EMPTY, 0, 0);
    LinkWritten(NAME_ENDING_EMPTY, 1, 1, FOUR_PARTS, 0, Last([]));
  }

  lemma CompleteNameMarked()
    ensures LabelsOf(Expand(NAME_ENDING_EMPTY, 1, 1, 0).items) == FOUR_PARTS
    ensures Arranged(WithLabels(BLANK, FOUR_PARTS)) == Name(4, false, [97], [95, 98], [95, 99], LOCAL, false)
    ensures Parsed(NAME_ENDING_EMPTY, 1) == (Name(4, false, [97], [95, 98], [95, 99], LOCAL, true), Some(17))
  {
    hide Expand, Written, WithLabels, WithItems, LabelsOf, Arranged, Encoded;
    var chain := Link(FOUR_PARTS, 0, Last([]));
    PointerToNothingWritten();
    CompressionInvisible(NAME_ENDING_EMPTY, 1, chain);
    NameIsFoldOfLabels(NAME_ENDING_EMPTY, 1, chain);
    PlainParts();
    ServiceNamesParsed([97], [95, 98], [95, 99]);
    var n := WithLabels(BLANK, FOUR_PARTS);
    assert AllLabels(chain) == FOUR_PARTS + [] == FOUR_PARTS;
    FourPartsBehindArranged(n);
    ArrangedMark(n);
  }

  lemma PlainParts()
    ensures IsPlain([97]) && IsPlain([95, 98]) && IsPlain([95, 99])
  {
  }

  lemma FourPartsBehindArranged(n: Name)
    ensures Arranged(n).parts == n.parts && (!Arranged(n).invalid ==> !n.invalid)
  {
  }

  // ---- Which names are valid ----

  /** The text is this lower-case word, in whatever case its letters are written. */
  predicate ReadsAs(text: CString, word: CString) {
    && |text| == |word|
    && forall i | 0 <= i < |word| :: text[i] == word[i] || (97 <= word[i] <= 122 && text[i] == word[i] - 32)
  }

  /** The text of the last label that is not the subtype marker "_sub". */
  function LastPart(labels: seq<seq<byte>>): CString
    decreases |labels|
  {
    if labels == [] then [] else
    var text := UpToZero(labels[|labels| - 1]);
    if ReadsAs(text, [95, 115, 117, 98]) then LastPart(labels[..|labels| - 1]) else text
  }

  lemma ReadsAsSame(text: CString, word: CString)
    requires forall i | 0 <= i < |word| :: !(65 <= word[i] <= 90)
    ensures ReadsAs(text, word) <==> SameIgnoringCase(text, word)
  {
    assert |text| == |word| ==> forall i | 0 <= i < |word| ::
        Lower(text[i]) == Lower(word[i])
        <==> text[i] == word[i] || (97 <= word[i] <= 122 && text[i] == word[i] - 32);
  }

  /** Which part was stored last. */
  function Newest(n: Name): CString {
    if n.parts == 2 then n.service else if n.parts == 3 then n.proto else n.domain
  }

  lemma OneMoreLabelRead(n: Name, bytes: seq<byte>, last: CString)
    requires n.parts <= 4 && (!n.invalid && n.parts >= 2 ==> Newest(n) == last)
    ensures var r, text := WithLabel(n, bytes), UpToZero(bytes);
            && r.parts <= 4
            && (!r.invalid && r.parts >= 2 ==> Newest(r) == if ReadsAs(text, [95, 115, 117, 98]) then last else text)
  {
    var text := UpToZero(bytes);
    ReadsAsSame(text, SUB);
    hide UpToZero, ReadsAs, SameIgnoringCase;
  }

  lemma {:induction false} NewestIsLastPart(labels: seq<seq<byte>>)
    ensures var n := WithLabels(BLANK, labels);
            n.parts <= 4 && (!n.invalid && n.parts >= 2 ==> Newest(n) == LastPart(labels))
    decreases |labels|
  {
    if labels != [] {
      var k := |labels| - 1;
      NewestIsLastPart(labels[..k]);
      assert labels == labels[..k] + [labels[k]];
      WithLabelsLast(BLANK, labels[..k], labels[k]);
      hide WithLabel, ReadsAs, UpToZero, WithLabels;
      OneMoreLabelRead(WithLabels(BLANK, labels[..k]), labels[k], LastPart(labels[..k]));
    }
  }

  /** A name with any part is valid exactly if the label rule has not marked it, it
      has two parts or more, and its last label but subtype markers is "local" or
      "arpa" in any case. */
  lemma ValidExactly(labels: seq<seq<byte>>)
    ensures var n, r := WithLabels(BLANK, labels), Arranged(WithLabels(BLANK, labels));
            n.parts > 0 ==>
              (!r.invalid <==> && !n.invalid && n.parts >= 2
                               && (ReadsAs(LastPart(labels), [108, 111, 99, 97, 108])
                                   || ReadsAs(LastPart(labels), [97, 114, 112, 97])))
  {
    NewestIsLastPart(labels);
    ReadsAsSame(LastPart(labels), LOCAL);
    ReadsAsSame(LastPart(labels), ARPA);
    ReadsAsSame([], LOCAL);
    ReadsAsSame([], ARPA);
    OnePartHasNoDomain(labels);
    hide WithLabels, LastPart, SameIgnoringCase, ReadsAs;
    assert !ReadsAs([], LOCAL) && !ReadsAs([], ARPA) by {
      NothingReadsAs();
    }
  }

  lemma NothingReadsAs()
    ensures !ReadsAs([], LOCAL) && !ReadsAs([], ARPA)
  {
  }

  lemma {:induction false} OnePartHasNoDomain(labels: seq<seq<byte>>)
    ensures var n := WithLabels(BLANK, labels);
            n.parts <= 4 && (n.parts < 4 ==> n.domain == []) && (n.invalid ==> n.parts == 4)
    decreases |labels|
  {
    if labels != [] {
      var k := |labels| - 1;
      OnePartHasNoDomain(labels[..k]);
      assert labels == labels[..k] + [labels[k]];
      WithLabelsLast(BLANK, labels[..k], labels[k]);
      hide WithLabels, SameIgnoringCase, ExtendsHost, UpToZero;
    }
  }

  /** So a parsed name is valid only in one of these two domains, whatever the packet. */
  lemma ValidOnlyInKnownDomain(packet: seq<byte>, start: nat, chain: Chain)
    requires Written(packet, start, start, chain) && Links(chain) <= 16
    requires var n := Parsed(packet, start).0; n.parts > 0 && !n.invalid
    ensures var last := LastPart(AllLabels(chain));
            ReadsAs(last, [108, 111, 99, 97, 108]) || ReadsAs(last, [97, 114, 112, 97])
  {
    ChainRead(packet, start, start, chain, 0);
    NameIsFoldOfLabels(packet, start, chain);
    ValidExactly(AllLabels(chain));
    var n := WithLabels(BLANK, AllLabels(chain));
    if n.parts == 4 {
      ArrangedMark(n);
    }
    hide Expand, Written, WithItems, WithLabels, LastPart, ReadsAs, SameIgnoringCase, EndsInPointerToNothing;
  }

  /** A subtype marker behind the domain does not count as the last label. */
  lemma MarkerBehindDomain()
    ensures Arranged(WithLabels(BLANK, [[104], LOCAL, SUB])) == Name(2, true, [104], [], [], LOCAL, false)
  {
    PlainText([104]);
    PlainText(LOCAL);
    PlainText(SUB);
    LocalIsNotSub();
    ThreeLabels(BLANK, [104], LOCAL, SUB);
    hide UpToZero, WithLabels;
  }
}
