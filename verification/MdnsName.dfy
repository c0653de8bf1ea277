/** Reading a domain name from an mDNS packet: labels, compression pointers and
    the rule that sorts labels into instance, service, protocol and domain. */
module MdnsName {
  import opened Bytes
  import opened Wrappers

  const MAX_COMPRESSION_DEPTH := 16
  const NAME_BUF_LEN := 65
  const MAX_LABEL := 63

  // C strings are byte sequences without their terminator.
  type CString = seq<byte>

  const LOCAL: CString := [108, 111, 99, 97, 108]
  const ARPA: CString := [97, 114, 112, 97]
  const IP6: CString := [105, 112, 54]
  const IN_ADDR: CString := [105, 110, 45, 97, 100, 100, 114]
  const SUB: CString := [95, 115, 117, 98]
  const UNDERSCORE: byte := 95
  const DOT: byte := 46

  datatype Name =
    Name(parts: nat, sub: bool, host: CString, service: CString, proto: CString, domain: CString, invalid: bool)

  const BLANK := Name(0, false, [], [], [], [], false)

  /** The string a buffer holds: everything before the first zero byte. */
  function UpToZero(s: seq<byte>): (r: CString)
    ensures |r| <= |s|
  {
    if s == [] || s[0] == 0 then [] else [s[0]] + UpToZero(s[1..])
  }

  function Lower(b: byte): byte {
    if 65 <= b <= 90 then b + 32 else b
  }

  predicate SameIgnoringCase(x: CString, y: CString) {
    |x| == |y| && forall i | 0 <= i < |x| :: Lower(x[i]) == Lower(y[i])
  }

  /** Appending with truncation to the size of the buffer. */
  function Concatenated(x: CString, y: CString): CString {
    if |x + y| < NAME_BUF_LEN then x + y else (x + y)[..NAME_BUF_LEN - 1]
  }

  /** The second label of a host name with more than one label before the domain. */
  predicate ExtendsHost(text: CString) {
    && (text == [] || text[0] != UNDERSCORE)
    && !SameIgnoringCase(text, LOCAL) && !SameIgnoringCase(text, ARPA)
    && !SameIgnoringCase(text, IP6) && !SameIgnoringCase(text, IN_ADDR)
  }

  function Stored(n: Name, text: CString): Name {
    match n.parts
    case 0 => n.(parts := 1, host := text)
    case 1 => n.(parts := 2, service := text)
    case 2 => n.(parts := 3, proto := text)
    case 3 => n.(parts := 4, domain := text)
    case _ => n
  }

  /** What one label does to a name. */
  function WithLabel(n: Name, bytes: seq<byte>): Name {
    var text := UpToZero(bytes);
    var checked := if n.parts == 4 then n.(invalid := true) else n;
    if n.parts == 1 && ExtendsHost(text) then checked.(host := Concatenated(Concatenated(n.host, [DOT]), text))
    else if SameIgnoringCase(text, SUB) then checked.(sub := true)
    else if checked.invalid then checked
    else Stored(checked, text)
  }

  function WithLabels(n: Name, labels: seq<seq<byte>>): Name
    decreases |labels|
  {
    if labels == [] then n else WithLabels(WithLabel(n, labels[0]), labels[1..])
  }

  /** What the reader comes across: a complete label, or else a pointer or something malformed. */
  datatype Item = Label(bytes: seq<byte>) | Other

  /** A name that has all four parts already is marked by whatever comes next, before it is looked at. */
  function WithItem(n: Name, item: Item): Name {
    match item
    case Label(bytes) => WithLabel(n, bytes)
    case Other => if n.parts == 4 then n.(invalid := true) else n
  }

  function WithItems(n: Name, items: seq<Item>): Name
    decreases |items|
  {
    if items == [] then n else WithItems(WithItem(n, items[0]), items[1..])
  }

  function LabelsOf(items: seq<Item>): seq<seq<byte>> {
    if items == [] then []
    else LabelsOf(items[..|items| - 1]) + if items[|items| - 1].Label? then [items[|items| - 1].bytes] else []
  }

  /** What is read until the name ends or turns out malformed, and the position after the name if it ends. */
  datatype Expansion = Expansion(items: seq<Item>, next: Option<nat>)

  function PointerTarget(high: byte, low: byte): nat {
    high % 64 * 256 + low
  }

  /** Expansion of compressed names, section 4.1.4 of RFC 1035: from `at` on, in a
      stretch of labels that began at `start`. The end of the packet ends a name
      like a zero byte; a pointer must lead before the stretch it is in. */
  function Expand(packet: seq<byte>, start: nat, at: nat, depth: nat): Expansion
    decreases start, |packet| - at
  {
    if at >= |packet| || packet[at] == 0 then Expansion([], Some(at + 1))
    else if packet[at] < 0xC0 then
      var end := at + 1 + packet[at];
      if packet[at] > MAX_LABEL || end > |packet| then Expansion([Other], None)
      else
        var rest := Expand(packet, start, end, depth);
        Expansion([Label(packet[at + 1..end])] + rest.items, rest.next)
    else if at + 1 >= |packet| then Expansion([Other], None)
    else
      var target := PointerTarget(packet[at], packet[at + 1]);
      if target >= start || depth >= MAX_COMPRESSION_DEPTH then Expansion([Other], None)
      else
        var rest := Expand(packet, target, target, depth + 1);
        Expansion([Other] + rest.items, if rest.next.Some? then Some(at + 2) else None)
  }

  /** How a complete name is laid out once all labels are in. */
  function Arranged(n: Name): Name {
    if n.parts == 0 || n.invalid then n else
    var shifted := if n.parts == 3 then n.(host := [], service := n.host, proto := n.service, domain := n.proto)
                   else if n.parts == 2 then n.(service := [], proto := [], domain := n.service)
                   else n;
    if SameIgnoringCase(shifted.domain, LOCAL) || SameIgnoringCase(shifted.domain, ARPA) then shifted
    else shifted.(invalid := true)
  }

  function Parsed(packet: seq<byte>, start: nat): (Name, Option<nat>) {
    var e := Expand(packet, start, start, 0);
    var n := WithItems(BLANK, e.items);
    (if e.next.Some? then Arranged(n) else n, e.next)
  }

  // ---- The reader ----

  class MdnsNameBuffer {
    var parts: nat
    var sub: bool
    var host: CString
    var service: CString
    var proto: CString
    var domain: CString
    var invalid: bool

    ghost function Model(): Name
      reads this
    {
      Name(parts, sub, host, service, proto, domain, invalid)
    }

    method MarkIfFull()
      modifies this`invalid
      ensures Model() == if parts == 4 then old(Model()).(invalid := true) else old(Model())
    {
      if parts == 4 {
        invalid := true;
      }
    }

    /** A label, in the buffer as a C string, is taken into the name. */
    method TakeLabel(buf: array<byte>, ghost bytes: seq<byte>, ghost unmarked: Name)
      requires UpToZero(buf[..]) == UpToZero(bytes)
      requires Model() == if unmarked.parts == 4 then unmarked.(invalid := true) else unmarked
      modifies this
      ensures Model() == WithLabel(unmarked, bytes)
    {
      var text := UpToZero(buf[..]);
      if parts == 1 && ExtendsHost(text) {
        host := Concatenated(host, [DOT]);
        host := Concatenated(host, text);
      } else if SameIgnoringCase(text, SUB) {
        sub := true;
      } else if !invalid {
        match parts {
          case 0 => host := text;
          case 1 => service := text;
          case 2 => proto := text;
          case 3 => domain := text;
          case _ => return;
        }
        parts := parts + 1;
      }
    }

    method Reset()
      modifies this
      ensures Model() == BLANK
    {
      parts := 0;
      sub := false;
      host, service, proto, domain := [], [], [], [];
      invalid := false;
    }
  }

  /** Copies a label into the buffer and closes it with a zero byte. */
  method CopyLabel(packet: seq<byte>, at: nat, len: nat, buf: array<byte>) returns (ok: bool)
    requires buf.Length == NAME_BUF_LEN && 1 <= len <= MAX_LABEL
    modifies buf
    ensures ok == (at + len <= |packet|)
    ensures ok ==> buf[..len] == packet[at..at + len] && buf[len] == 0
  {
    for i := 0 to len
      invariant at + i <= |packet| || i == 0
      invariant i > 0 ==> at + i <= |packet| && buf[..i] == packet[at..at + i]
    {
      if at + i >= |packet| {
        return false;
      }
      buf[i] := packet[at + i];
    }
    buf[len] := 0;
    return true;
  }

  lemma StopsAtZero(s: seq<byte>, t: seq<byte>, n: nat)
    requires n < |s| && n <= |t| && s[..n] == t[..n] && s[n] == 0 && (n < |t| ==> t[n] == 0)
    ensures UpToZero(s) == UpToZero(t)
    decreases n
  {
    if n > 0 {
      assert s[0] == s[..n][0] == t[..n][0] == t[0];
      assert s[1..][..n - 1] == s[..n][1..] && t[1..][..n - 1] == t[..n][1..];
      StopsAtZero(s[1..], t[1..], n - 1);
    }
  }

  lemma FirstItem(n: Name, first: Item, rest: seq<Item>)
    ensures WithItems(n, [first] + rest) == WithItems(WithItem(n, first), rest)
    ensures WithItems(n, [first]) == WithItem(n, first)
  {
    assert ([first] + rest)[1..] == rest;
  }

  /** One label, unless it is too long or runs over the end of the packet. */
  method ReadLabel(packet: seq<byte>, at: nat, name: MdnsNameBuffer, buf: array<byte>) returns (ok: bool)
    requires buf.Length == NAME_BUF_LEN && at < |packet| && 1 <= packet[at] < 0xC0
    modifies name, buf
    ensures ok == (packet[at] <= MAX_LABEL && at + 1 + packet[at] <= |packet|)
    ensures name.Model()
         == WithItem(old(name.Model()), if ok then Label(packet[at + 1..at + 1 + packet[at]]) else Other)
  {
    hide WithLabel, UpToZero;
    ghost var was := name.Model();
    name.MarkIfFull();
    var len := packet[at];
    if len > MAX_LABEL {
      return false;
    }
    ok := CopyLabel(packet, at + 1, len, buf);
    if ok {
      ghost var bytes := packet[at + 1..at + 1 + len];
      assert buf[..][..len] == buf[..len] == bytes[..len];
      StopsAtZero(buf[..], bytes, len);
      name.TakeLabel(buf, bytes, was);
    }
  }

  /** A compression pointer, which ends the stretch it is in. */
  method FollowPointer(packet: seq<byte>, start: nat, at: nat, name: MdnsNameBuffer, buf: array<byte>, depth: nat)
    returns (next: Option<nat>)
    requires buf.Length == NAME_BUF_LEN && at < |packet| && packet[at] >= 0xC0
    modifies name, buf
    ensures name.Model() == WithItems(old(name.Model()), Expand(packet, start, at, depth).items)
    ensures next == Expand(packet, start, at, depth).next
    decreases start, 0
  {
    hide WithLabel;
    ghost var e := Expand(packet, start, at, depth);
    FirstItem(name.Model(), Other, e.items[1..]);
    assert e.items == [Other] + e.items[1..];
    name.MarkIfFull();
    if at + 1 >= |packet| {
      return None;
    }
    var target := PointerTarget(packet[at], packet[at + 1]);
    if target >= start || depth >= MAX_COMPRESSION_DEPTH {
      return None;
    }
    var inner := ReadFqdn(packet, target, name, buf, depth + 1);
    return if inner.Some? then Some(at + 2) else None;
  }

  /** The reader itself. Every index is checked against the packet, and the
      position only moves on within a stretch, or to an earlier stretch. */
  method ReadFqdn(packet: seq<byte>, start: nat, name: MdnsNameBuffer, buf: array<byte>, depth: nat)
    returns (next: Option<nat>)
    requires buf.Length == NAME_BUF_LEN
    modifies name, buf
    ensures name.Model() == WithItems(old(name.Model()), Expand(packet, start, start, depth).items)
    ensures next == Expand(packet, start, start, depth).next
    decreases start, 1
  {
    hide WithItem, PointerTarget;
    var at := start;
    ghost var whole := Expand(packet, start, start, depth);
    ghost var done := WithItems(name.Model(), whole.items);
    while at < |packet| && packet[at] != 0
      invariant at >= start
      invariant WithItems(name.Model(), Expand(packet, start, at, depth).items) == done
      invariant Expand(packet, start, at, depth).next == whole.next
      decreases |packet| - at
    {
      ghost var e := Expand(packet, start, at, depth);
      if packet[at] >= 0xC0 {
        next := FollowPointer(packet, start, at, name, buf, depth);
        return next;
      }
      FirstItem(name.Model(), e.items[0], e.items[1..]);
      assert e.items == [e.items[0]] + e.items[1..];
      var ok := ReadLabel(packet, at, name, buf);
      if !ok {
        return None;
      }
      at := at + 1 + packet[at];
    }
    return Some(at + 1);
  }

  method ParseFqdn(packet: seq<byte>, start: nat, name: MdnsNameBuffer, buf: array<byte>) returns (next: Option<nat>)
    requires buf.Length == NAME_BUF_LEN
    modifies name, buf
    ensures (name.Model(), next) == Parsed(packet, start)
  {
    hide WithItems, Expand;
    name.Reset();
    next := ReadFqdn(packet, start, name, buf, 0);
    if next.None? || name.parts == 0 || name.invalid {
      return;
    }
    if name.parts == 3 {
      name.host, name.service, name.proto, name.domain := [], name.host, name.service, name.proto;
    } else if name.parts == 2 {
      name.domain := name.service;
      name.service, name.proto := [], [];
    }
    if SameIgnoringCase(name.domain, LOCAL) || SameIgnoringCase(name.domain, ARPA) {
      return;
    }
    name.invalid := true;
  }
}
