/** TXT records, section 6 of RFC 6763: printing key/value items into a packet
    and reading them back. */
module MdnsTxt {
  import opened Bytes
  import opened Wrappers

  const MAX_PACKET_SIZE := 1460
  const EQUALS: byte := 61

  /** A key, and a value that may be missing. */
  datatype Item = Item(key: seq<byte>, value: Option<seq<byte>>)

  // ---- Printing ----

  function Text(i: Item): seq<byte> {
    i.key + if i.value.Some? then [EQUALS] + i.value.value else []
  }

  /** One entry; the length byte holds the length modulo 256. */
  function Entry(i: Item): (r: seq<byte>)
    ensures |r| == |Text(i)| + 1
  {
    [|Text(i)| % 256] + Text(i)
  }

  function Entries(items: seq<Item>): seq<byte> {
    if items == [] then [] else Entries(items[..|items| - 1]) + Entry(items[|items| - 1])
  }

  /** The data of a TXT record; without items it is a single zero byte. */
  function Record(items: seq<Item>): (r: seq<byte>)
    ensures |r| >= 1
  {
    if items == [] then [0] else Entries(items)
  }

  method AppendEntry(packet: array<byte>, index: nat, item: Item) returns (written: nat)
    requires index <= packet.Length && packet.Length <= 1460
    requires index + |Entry(item)| <= packet.Length || index + |Entry(item)| >= 1460
    modifies packet
    ensures written == if index + |Entry(item)| < 1460 then |Entry(item)| else 0
    ensures index + written <= packet.Length
    ensures packet[..index + written] == old(packet[..index]) + if written > 0 then Entry(item) else []
  {
    var len := |item.key| + (if item.value.Some? then |item.value.value| + 1 else 0);
    if index + len + 1 >= MAX_PACKET_SIZE {
      return 0;
    }
    var text := Text(item);
    assert Entry(item) == [len % 256] + text && |text| == len;
    hide Entry, Text;
    packet[index] := len % 256;
    forall k | 0 <= k < len {
      packet[index + 1 + k] := text[k];
    }
    assert packet[index + 1..index + 1 + len] == text;
    assert packet[..index + 1 + len] == packet[..index] + [packet[index]] + packet[index + 1..index + 1 + len];
    return len + 1;
  }

  method AppendRecordData(packet: array<byte>, index: nat, items: seq<Item>) returns (ok: bool, end: nat)
    requires packet.Length == 1460 && index < 1460
    modifies packet
    ensures ok == (items == [] || index + |Entries(items)| < 1460)
    ensures ok ==> end <= packet.Length && packet[..end] == old(packet[..index]) + Record(items)
  {
    hide Entry;
    end := index;
    for k := 0 to |items|
      invariant end == index + |Entries(items[..k])| < MAX_PACKET_SIZE
      invariant packet[..end] == old(packet[..index]) + Entries(items[..k])
    {
      assert items[..k + 1][..k] == items[..k];
      EntriesGrow(items, k + 1);
      var l := AppendEntry(packet, end, items[k]);
      if l == 0 {
        return false, end;
      }
      end := end + l;
    }
    assert items[..|items|] == items;
    if end == index {
      NothingPrinted(items);
      packet[end] := 0;
      end := end + 1;
      assert packet[..end] == packet[..end - 1] + [0];
    }
    return true, end;
  }

  lemma {:induction false} EntriesGrow(items: seq<Item>, k: nat)
    requires k <= |items|
    ensures |Entries(items[..k])| <= |Entries(items)|
    decreases |items|
  {
    if k < |items| {
      var front := items[..|items| - 1];
      assert front[..k] == items[..k];
      EntriesGrow(front, k);
    } else {
      assert items[..k] == items;
    }
  }

  lemma NothingPrinted(items: seq<Item>)
    ensures |Entries(items)| == 0 ==> items == []
  {
  }

  // ---- Reading ----

  /** How many entries the data holds from i on, if they do not run over its end. */
  function CountFrom(data: seq<byte>, i: nat): Option<nat>
    decreases |data| - i
  {
    if i >= |data| || data[i] == 0 then Some(0)
    else if i + 1 + data[i] > |data| then None
    else
      var rest := CountFrom(data, i + 1 + data[i]);
      if rest.None? then None else Some(rest.value + 1)
  }

  function CountItems(data: seq<byte>): Option<nat> {
    if |data| == 1 then Some(0) else CountFrom(data, 0)
  }

  /** The length of the key: up to the first '='. */
  function KeyLength(text: seq<byte>, i: nat): (r: nat)
    requires i <= |text|
    ensures i <= r <= |text|
    decreases |text| - i
  {
    if i == |text| || text[i] == EQUALS then i else KeyLength(text, i + 1)
  }

  /** An entry as an item; an empty value counts as none. */
  function ItemOf(text: seq<byte>): Item {
    var n := KeyLength(text, 0);
    Item(text[..n], if n + 1 < |text| then Some(text[n + 1..]) else None)
  }

  predicate HasKey(text: seq<byte>) {
    text != [] && text[0] != EQUALS
  }

  /** The items from i on, at most `left` of them. */
  function ItemsFrom(data: seq<byte>, i: nat, left: nat): Option<seq<Item>>
    decreases |data| - i
  {
    if i >= |data| || left == 0 || data[i] == 0 then Some([])
    else if i + 1 + data[i] > |data| then None
    else
      var text, next := data[i + 1..i + 1 + data[i]], i + 1 + data[i];
      if !HasKey(text) then ItemsFrom(data, next, left)
      else
        var rest := ItemsFrom(data, next, left - 1);
        if rest.None? then None else Some([ItemOf(text)] + rest.value)
  }

  function ReadItems(data: seq<byte>): Option<seq<Item>> {
    var count := CountItems(data);
    if count.None? || count.value == 0 then None else ItemsFrom(data, 0, count.value)
  }

  method GetTxtItemsCount(data: seq<byte>) returns (count: int)
    ensures count == if CountItems(data).Some? then CountItems(data).value else -1
  {
    if |data| == 1 {
      return 0;
    }
    var items := 0;
    var i := 0;
    while i < |data|
      invariant items >= 0
      invariant CountFrom(data, 0).Some? <==> CountFrom(data, i).Some?
      invariant CountFrom(data, i).Some? ==> CountFrom(data, 0).value == items + CountFrom(data, i).value
      decreases |data| - i
    {
      var partLen := data[i];
      if partLen == 0 {
        break;
      }
      if i + 1 + partLen > |data| {
        return -1;
      }
      i := i + 1 + partLen;
      items := items + 1;
    }
    return items;
  }

  /** -1 for an entry without a key. */
  method GetTxtItemLen(text: seq<byte>) returns (len: int)
    requires text != []
    ensures len == if HasKey(text) then KeyLength(text, 0) else -1
  {
    if text[0] == EQUALS {
      return -1;
    }
    for i := 0 to |text|
      invariant KeyLength(text, 0) == KeyLength(text, i)
    {
      if text[i] == EQUALS {
        return i;
      }
    }
    return |text|;
  }

  /** What one entry becomes: nothing when it has no key. */
  method MakeItem(text: seq<byte>) returns (item: Option<Item>)
    requires text != []
    ensures item == if HasKey(text) then Some(ItemOf(text)) else None
  {
    var nameLen := GetTxtItemLen(text);
    if nameLen < 0 {
      return None;
    }
    var value := if |text| - nameLen - 1 > 0 then Some(text[nameLen + 1..]) else None;
    return Some(Item(text[..nameLen], value));
  }

  /** With `built` made from the first i bytes, the whole result is `built` and what the rest yields. */
  predicate BuiltSoFar(data: seq<byte>, count: nat, i: nat, built: seq<Item>) {
    && |built| <= count
    && var all, rest := ItemsFrom(data, 0, count), ItemsFrom(data, i, count - |built|);
       && (all.Some? <==> rest.Some?)
       && (rest.Some? ==> all.value == built + rest.value)
  }

  lemma OneMoreBuilt(data: seq<byte>, count: nat, i: nat, built: seq<Item>)
    requires BuiltSoFar(data, count, i, built) && i < |data| && |built| < count && data[i] != 0
    ensures var next := i + 1 + data[i];
            && (next > |data| ==> ItemsFrom(data, 0, count) == None)
            && (next <= |data| ==>
                  var text := data[i + 1..next];
                  BuiltSoFar(data, count, next, if HasKey(text) then built + [ItemOf(text)] else built))
  {
    hide HasKey, ItemOf;
    var next := i + 1 + data[i];
    if next <= |data| {
      var text := data[i + 1..next];
      var rest := ItemsFrom(data, next, count - |built| - 1);
      if HasKey(text) && rest.Some? {
        assert built + ([ItemOf(text)] + rest.value) == built + [ItemOf(text)] + rest.value;
      }
    }
  }

  method ResultTxtCreate(data: seq<byte>) returns (items: Option<seq<Item>>)
    ensures items == ReadItems(data)
  {
    hide HasKey, ItemOf, BuiltSoFar;
    var count := GetTxtItemsCount(data);
    if count <= 0 {
      return None;
    }
    var built: seq<Item> := [];
    var i := 0;
    BuiltStart(data, count);
    while i < |data| && |built| < count
      invariant |built| <= count && BuiltSoFar(data, count, i, built)
      decreases |data| - i
    {
      var partLen := data[i];
      if partLen == 0 {
        break;
      }
      OneMoreBuilt(data, count, i, built);
      if i + 1 + partLen > |data| {
        return None;
      }
      var item := MakeItem(data[i + 1..i + 1 + partLen]);
      if item.Some? {
        built := built + [item.value];
      }
      i := i + 1 + partLen;
    }
    BuiltEnd(data, count, i, built);
    return Some(built);
  }

  lemma BuiltStart(data: seq<byte>, count: nat)
    ensures BuiltSoFar(data, count, 0, [])
  {
    var all := ItemsFrom(data, 0, count);
    if all.Some? {
      assert [] + all.value == all.value;
    }
  }

  lemma BuiltEnd(data: seq<byte>, count: nat, i: nat, built: seq<Item>)
    requires BuiltSoFar(data, count, i, built) && (i >= |data| || |built| == count || data[i] == 0)
    ensures ItemsFrom(data, 0, count) == Some(built)
  {
    assert built + [] == built;
  }

  // ---- Round trip ----

  /** What any printed item can be: a key without '=', not empty, and at most 255 bytes in all. */
  predicate Printable(i: Item) {
    i.key != [] && 61 !in i.key && |Text(i)| <= 255
  }

  predicate AllPrintable(items: seq<Item>) {
    forall k | 0 <= k < |items| :: Printable(items[k])
  }

  /** An item as it comes back. */
  function Normal(i: Item): Item {
    if i.value == Some([]) then i.(value := None) else i
  }

  function NormalAll(items: seq<Item>): seq<Item> {
    seq(|items|, k requires 0 <= k < |items| => Normal(items[k]))
  }

  lemma {:induction false} KeyFound(text: seq<byte>, n: nat, i: nat)
    requires i <= n <= |text| && EQUALS !in text[..n] && (n < |text| ==> text[n] == EQUALS)
    ensures KeyLength(text, i) == n
    decreases n - i
  {
    if i < n {
      assert text[i] == text[..n][i];
      KeyFound(text, n, i + 1);
    }
  }

  lemma EntryReadBack(i: Item)
    requires Printable(i)
    ensures HasKey(Text(i)) && ItemOf(Text(i)) == Normal(i)
  {
    var text, n := Text(i), |i.key|;
    assert text[..n] == i.key;
    assert text[0] == i.key[0];
    KeyFound(text, n, 0);
    if i.value.Some? {
      assert text[n + 1..] == i.value.value;
    }
  }

  /** The data from position `at` on are these entries. */
  predicate EntriesAt(data: seq<byte>, at: nat, items: seq<Item>) {
    at <= |data| && data[at..] == EntriesForward(items)
  }

  function EntriesForward(items: seq<Item>): seq<byte>
    decreases |items|
  {
    if items == [] then [] else Entry(items[0]) + EntriesForward(items[1..])
  }

  lemma {:induction false} EntriesEitherWay(items: seq<Item>)
    ensures Entries(items) == EntriesForward(items)
  {
    EntriesSplit([], items);
    assert [] + items == items;
  }

  lemma {:induction false} EntriesSplit(front: seq<Item>, items: seq<Item>)
    ensures Entries(front + items) == Entries(front) + EntriesForward(items)
    decreases |items|
  {
    hide Entry;
    if items == [] {
      assert front + items == front;
    } else {
      var longer, rest := front + [items[0]], items[1..];
      assert longer + rest == front + items;
      assert longer[..|front|] == front;
      hide Entries, EntriesForward;
      EntriesSplit(longer, rest);
      OneEntryOver(front, items);
    }
  }

  lemma OneEntryOver(front: seq<Item>, items: seq<Item>)
    requires items != []
    ensures Entries(front + [items[0]]) + EntriesForward(items[1..]) == Entries(front) + EntriesForward(items)
  {
    hide Entry;
    assert (front + [items[0]])[..|front|] == front;
    var x, y, z := Entries(front), Entry(items[0]), EntriesForward(items[1..]);
    assert (x + y) + z == x + (y + z);
  }

  lemma FirstEntry(data: seq<byte>, at: nat, items: seq<Item>)
    requires EntriesAt(data, at, items) && items != [] && AllPrintable(items)
    ensures at < |data| && data[at] == |Text(items[0])| > 0
    ensures var next := at + 1 + data[at];
            next <= |data| && data[at + 1..next] == Text(items[0]) && EntriesAt(data, next, items[1..])
  {
    var tail, n := data[at..], |Text(items[0])|;
    assert tail[0] == data[at];
    assert tail[1..n + 1] == Text(items[0]);
    assert data[at + 1..at + 1 + n] == tail[1..n + 1];
    assert data[at + 1 + n..] == tail[n + 1..];
  }

  lemma {:induction false} EntriesCounted(data: seq<byte>, at: nat, items: seq<Item>)
    requires EntriesAt(data, at, items) && AllPrintable(items)
    ensures CountFrom(data, at) == Some(|items|)
    decreases |items|
  {
    if items != [] {
      FirstEntry(data, at, items);
      EntriesCounted(data, at + 1 + data[at], items[1..]);
    }
  }

  lemma KeyedEntryRead(data: seq<byte>, at: nat, left: nat)
    requires at < |data| && data[at] > 0 && at + 1 + data[at] <= |data| && left > 0
    requires HasKey(data[at + 1..at + 1 + data[at]])
    ensures var rest := ItemsFrom(data, at + 1 + data[at], left - 1);
            ItemsFrom(data, at, left) ==
              if rest.None? then None else Some([ItemOf(data[at + 1..at + 1 + data[at]])] + rest.value)
  {
    hide HasKey, ItemOf;
  }

  lemma {:induction false} EntriesRead(data: seq<byte>, at: nat, items: seq<Item>)
    requires EntriesAt(data, at, items) && AllPrintable(items)
    ensures ItemsFrom(data, at, |items|) == Some(NormalAll(items))
    decreases |items|
  {
    hide EntriesAt, HasKey, ItemOf, Printable, Text, Normal;
    if items == [] {
      assert ItemsFrom(data, at, 0) == Some([]);
    } else {
      FirstEntry(data, at, items);
      EntryReadBack(items[0]);
      KeyedEntryRead(data, at, |items|);
      EntriesRead(data, at + 1 + data[at], items[1..]);
      assert NormalAll(items) == [Normal(items[0])] + NormalAll(items[1..]);
    }
  }

  /** Reading a printed record gives back the items in order; only an empty value
      comes back as no value, and a record without items as none at all. */
  lemma RecordRoundTrip(items: seq<Item>)
    requires AllPrintable(items)
    ensures ReadItems(Record(items)) == if items == [] then None else Some(NormalAll(items))
  {
    if items != [] {
      EntriesEitherWay(items);
      assert Entries(items)[0..] == Entries(items);
      EntriesCounted(Entries(items), 0, items);
      EntriesRead(Entries(items), 0, items);
      FirstEntry(Entries(items), 0, items);
    }
  }

  // ---- The counting loop and the building loop ----

  /** No entry from i on lacks a key. */
  predicate AllKeyed(data: seq<byte>, i: nat)
    decreases |data| - i
  {
    i >= |data| || data[i] == 0 || i + 1 + data[i] > |data|
    || (HasKey(data[i + 1..i + 1 + data[i]]) && AllKeyed(data, i + 1 + data[i]))
  }

  lemma {:induction false} BuiltAtMostCounted(data: seq<byte>, i: nat, left: nat)
    requires CountFrom(data, i).Some? && left >= CountFrom(data, i).value
    ensures ItemsFrom(data, i, left).Some? && |ItemsFrom(data, i, left).value| <= CountFrom(data, i).value
    ensures |ItemsFrom(data, i, left).value| == CountFrom(data, i).value <==> AllKeyed(data, i)
    decreases |data| - i
  {
    if i < |data| && data[i] != 0 {
      var text, next := data[i + 1..i + 1 + data[i]], i + 1 + data[i];
      if HasKey(text) {
        BuiltAtMostCounted(data, next, left - 1);
      } else {
        BuiltAtMostCounted(data, next, left);
      }
    }
  }

  /** When the count succeeds, building never fails and never yields more items; it
      yields as many as were counted exactly when every entry has a key. */
  lemma LoopsAgreeIffAllKeyed(data: seq<byte>)
    requires CountItems(data).Some? && CountItems(data).value > 0
    ensures ReadItems(data).Some? && |ReadItems(data).value| <= CountItems(data).value
    ensures |ReadItems(data).value| == CountItems(data).value <==> AllKeyed(data, 0)
  {
    BuiltAtMostCounted(data, 0, CountItems(data).value);
  }

  // ---- Entries, told by their bytes ----

  /** The positions at which entries start: each begins with its length, which is
      not zero, and ends inside the data; behind the last one comes a zero byte or
      the end of the data. */
  predicate Starts(data: seq<byte>, i: nat, starts: seq<nat>) {
    && starts != [] && starts[0] == i
    && (forall k | 0 <= k < |starts| - 1 ::
          && starts[k] < |data| && data[starts[k]] > 0
          && starts[k + 1] == starts[k] + 1 + data[starts[k]] <= |data|)
    && var end := starts[|starts| - 1]; end >= |data| || data[end] == 0
  }

  lemma StartsBehind(data: seq<byte>, i: nat, starts: seq<nat>)
    requires i < |data| && data[i] > 0 && i + 1 + data[i] <= |data|
    ensures Starts(data, i + 1 + data[i], starts) ==> Starts(data, i, [i] + starts)
    ensures Starts(data, i, starts) ==> |starts| > 1 && Starts(data, i + 1 + data[i], starts[1..])
  {
    if Starts(data, i + 1 + data[i], starts) {
      var longer := [i] + starts;
      assert forall k | 1 <= k < |longer| :: longer[k] == starts[k - 1];
      forall k | 0 <= k < |longer| - 1
        ensures longer[k] < |data| && data[longer[k]] > 0 && longer[k + 1] == longer[k] + 1 + data[longer[k]] <= |data|
      {
        if k > 0 {
          var before := k - 1;
          assert starts[before + 1] == starts[before] + 1 + data[starts[before]];
        }
      }
    }
    if Starts(data, i, starts) {
      var shorter := starts[1..];
      assert starts[0 + 1] == i + 1 + data[i];
      forall k | 0 <= k < |shorter| - 1
        ensures shorter[k] < |data| && data[shorter[k]] > 0
        ensures shorter[k + 1] == shorter[k] + 1 + data[shorter[k]] <= |data|
      {
        var behind := k + 1;
        assert starts[behind + 1] == starts[behind] + 1 + data[starts[behind]];
      }
    }
  }

  lemma OnlyStart(data: seq<byte>, i: nat, starts: seq<nat>)
    requires Starts(data, i, starts) && (i >= |data| || data[i] == 0)
    ensures |starts| == 1
  {
  }

  lemma {:induction false} CountFromExactly(data: seq<byte>, i: nat, n: nat)
    ensures CountFrom(data, i) == Some(n) <==> exists starts :: Starts(data, i, starts) && |starts| == n + 1
    decreases |data| - i
  {
    if i >= |data| || data[i] == 0 {
      assert Starts(data, i, [i]);
      forall starts | Starts(data, i, starts) ensures |starts| == 1 {
        OnlyStart(data, i, starts);
      }
    } else {
      var next := i + 1 + data[i];
      forall starts | Starts(data, i, starts) ensures |starts| > 1 && next <= |data| {
        assert |starts| > 1 ==> starts[0 + 1] == starts[0] + 1 + data[starts[0]] <= |data|;
      }
      if next <= |data| {
        if n > 0 {
          CountFromExactly(data, next, n - 1);
        }
        OneMoreStart(data, i, n);
      }
    }
  }

  lemma OneMoreStart(data: seq<byte>, i: nat, n: nat)
    requires i < |data| && data[i] > 0 && i + 1 + data[i] <= |data|
    ensures (exists starts :: Starts(data, i, starts) && |starts| == n + 1) <==>
            n > 0 && exists starts :: Starts(data, i + 1 + data[i], starts) && |starts| == n
  {
    hide Starts;
    if n > 0 {
      if starts :| Starts(data, i + 1 + data[i], starts) && |starts| == n {
        StartsBehind(data, i, starts);
        assert |[i] + starts| == n + 1;
      }
    }
    if starts :| Starts(data, i, starts) && |starts| == n + 1 {
      StartsBehind(data, i, starts);
      assert |starts[1..]| == n;
    }
  }

  /** The count is the number of entries, exactly if the data is nothing but entries
      up to a zero byte or its end; a single byte always counts as no entry, even
      one that announces more. */
  lemma CountExactly(data: seq<byte>, n: nat)
    ensures CountItems(data) == Some(n) <==>
              if |data| == 1 then n == 0 else exists starts :: Starts(data, 0, starts) && |starts| == n + 1
  {
    CountFromExactly(data, 0, n);
  }

  /** An entry is an item exactly if it does not begin with '='; its key is what
      comes before the first '=', its value what comes behind that, if anything. */
  lemma ItemExactly(text: seq<byte>, item: Item)
    requires text != []
    ensures HasKey(text) <==> text[0] != 61
    ensures HasKey(text) ==>
              (ItemOf(text) == item <==>
                 && 61 !in item.key
                 && match item.value
                    case None => text == item.key || text == item.key + [61]
                    case Some(v) => v != [] && text == item.key + [61] + v)
  {
    KeyIs(text);
    var n := KeyLength(text, 0);
    hide KeyLength;
    KeySplits(text, n, item);
  }

  lemma {:induction false} KeyFrom(text: seq<byte>, i: nat)
    requires i <= |text| && 61 !in text[..i]
    ensures 61 !in text[..KeyLength(text, i)]
    ensures KeyLength(text, i) < |text| ==> text[KeyLength(text, i)] == 61
    decreases |text| - i
  {
    if i < |text| && text[i] != 61 {
      assert text[..i + 1] == text[..i] + [text[i]];
      KeyFrom(text, i + 1);
    }
  }

  lemma KeyIs(text: seq<byte>)
    ensures var n := KeyLength(text, 0);
            61 !in text[..n] && (n < |text| ==> text[n] == 61)
  {
    KeyFrom(text, 0);
  }

  lemma NoneBefore(text: seq<byte>, n: nat)
    requires n <= |text| && 61 !in text[..n]
    ensures forall k | 0 <= k < n :: text[k] != 61
  {
    assert forall k | 0 <= k < n :: text[..n][k] == text[k];
  }

  lemma KeySplits(text: seq<byte>, n: nat, item: Item)
    requires n <= |text| && 61 !in text[..n] && (n < |text| ==> text[n] == 61)
    ensures item == Item(text[..n], if n + 1 < |text| then Some(text[n + 1..]) else None) <==>
              && 61 !in item.key
              && match item.value
                 case None => text == item.key || text == item.key + [61]
                 case Some(v) => v != [] && text == item.key + [61] + v
  {
    var m := |item.key|;
    if 61 !in item.key && m <= |text| && text[..m] == item.key && (m < |text| ==> text[m] == 61) {
      NoneBefore(text, m);
      NoneBefore(text, n);
    }
    if n < |text| {
      assert text == text[..n] + [61] + text[n + 1..];
    } else {
      assert text[..n] == text;
    }
    match item.value
    case None =>
      if text == item.key + [61] {
        assert text[..m] == item.key && text[m] == 61;
      }
    case Some(v) =>
      if text == item.key + [61] + v {
        assert text[..m] == item.key && text[m] == 61 && text[m + 1..] == v;
      }
  }
}
