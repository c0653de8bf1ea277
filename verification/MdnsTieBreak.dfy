/** Who keeps a name when two hosts probe for it: SRV and TXT records are
    compared by length, then byte by byte. */
module MdnsTieBreak {
  import opened Bytes
  import MdnsName
  import opened MdnsTxt
  import opened Wrappers

  datatype Verdict = WeWin | Same | TheyWin

  function Opposite(v: Verdict): Verdict {
    match v
    case WeWin => TheyWin
    case Same => Same
    case TheyWin => WeWin
  }

  /** Byte by byte from position i on. */
  function CompareFrom(ours: seq<byte>, theirs: seq<byte>, i: nat): Verdict
    requires |ours| == |theirs| && i <= |ours|
    decreases |ours| - i
  {
    if i == |ours| then Same
    else if ours[i] > theirs[i] then WeWin
    else if ours[i] < theirs[i] then TheyWin
    else CompareFrom(ours, theirs, i + 1)
  }

  function Compare(ours: seq<byte>, theirs: seq<byte>): Verdict {
    if |theirs| > |ours| then TheyWin
    else if |theirs| < |ours| then WeWin
    else CompareFrom(ours, theirs, 0)
  }

  method CompareBytes(ours: seq<byte>, theirs: seq<byte>) returns (v: Verdict)
    requires |ours| == |theirs|
    ensures v == CompareFrom(ours, theirs, 0)
  {
    for i := 0 to |ours|
      invariant CompareFrom(ours, theirs, 0) == CompareFrom(ours, theirs, i)
    {
      if ours[i] > theirs[i] {
        return WeWin;
      }
      if ours[i] < theirs[i] {
        return TheyWin;
      }
    }
    return Same;
  }

  // ---- The comparison is a total order ----

  lemma {:induction false} CompareFromAntisymmetric(x: seq<byte>, y: seq<byte>, i: nat)
    requires |x| == |y| && i <= |x|
    ensures CompareFrom(y, x, i) == Opposite(CompareFrom(x, y, i))
    ensures CompareFrom(x, y, i) == Same <==> x[i..] == y[i..]
    decreases |x| - i
  {
    if i < |x| {
      CompareFromAntisymmetric(x, y, i + 1);
      assert x[i..] == [x[i]] + x[i + 1..] && y[i..] == [y[i]] + y[i + 1..];
    }
  }

  lemma {:induction false} CompareFromTransitive(x: seq<byte>, y: seq<byte>, z: seq<byte>, i: nat)
    requires |x| == |y| == |z| && i <= |x|
    requires CompareFrom(x, y, i) == WeWin && CompareFrom(y, z, i) == WeWin
    ensures CompareFrom(x, z, i) == WeWin
    decreases |x| - i
  {
    if x[i] == y[i] == z[i] {
      CompareFromTransitive(x, y, z, i + 1);
    }
  }

  /** Exactly one of two different records wins, seen from either side; only equal
      records are the same; winning is transitive. */
  lemma CompareIsTotalOrder(x: seq<byte>, y: seq<byte>, z: seq<byte>)
    ensures Compare(y, x) == Opposite(Compare(x, y))
    ensures Compare(x, y) == Same <==> x == y
    ensures Compare(x, y) == WeWin && Compare(y, z) == WeWin ==> Compare(x, z) == WeWin
  {
    if |x| == |y| {
      CompareFromAntisymmetric(x, y, 0);
      assert x[0..] == x && y[0..] == y;
    }
    if |x| == |y| == |z| && Compare(x, y) == WeWin && Compare(y, z) == WeWin {
      CompareFromTransitive(x, y, z, 0);
    }
  }

  /** Both records agree up to position k, and there `x` has the greater byte. */
  predicate GreaterAt(x: seq<byte>, y: seq<byte>, k: nat) {
    k < |x| && k < |y| && x[..k] == y[..k] && x[k] > y[k]
  }

  lemma {:induction false} FirstDifferenceDecides(x: seq<byte>, y: seq<byte>, i: nat)
    requires |x| == |y| && i <= |x| && x[..i] == y[..i]
    ensures CompareFrom(x, y, i) == WeWin <==> exists k :: i <= k < |x| && GreaterAt(x, y, k)
    decreases |x| - i
  {
    if i < |x| {
      assert x[..i + 1] == x[..i] + [x[i]] && y[..i + 1] == y[..i] + [y[i]];
      if x[i] == y[i] {
        FirstDifferenceDecides(x, y, i + 1);
        assert !GreaterAt(x, y, i);
      } else {
        assert x[i] > y[i] ==> GreaterAt(x, y, i);
        forall k | i < k < |x| ensures !GreaterAt(x, y, k) {
          assert x[..k][i] == x[i] && y[..k][i] == y[i];
        }
      }
    }
  }

  /** The longer record wins, and of two records of one length the one with the
      greater byte where they first differ. */
  lemma GreaterByteWins(x: seq<byte>, y: seq<byte>)
    ensures Compare(x, y) == WeWin <==> |x| > |y| || (|x| == |y| && exists k :: GreaterAt(x, y, k))
    ensures Compare(x, y) == TheyWin <==> |y| > |x| || (|x| == |y| && exists k :: GreaterAt(y, x, k))
  {
    CompareIsTotalOrder(x, y, []);
    if |x| == |y| {
      FirstDifferenceDecides(x, y, 0);
      FirstDifferenceDecides(y, x, 0);
    }
  }

  // ---- TXT ----

  function TxtVerdict(items: seq<Item>, data: seq<byte>): Verdict {
    if |data| <= 1 && items != [] then WeWin
    else if |data| > 1 && items == [] then TheyWin
    else if items == [] then Same
    else Compare(Entries(items), data)
  }

  method CheckTxtCollision(items: seq<Item>, data: seq<byte>) returns (v: Verdict)
    requires |data| < MAX_PACKET_SIZE
    ensures v == TxtVerdict(items, data)
  {
    if |data| <= 1 && items != [] {
      return WeWin;
    } else if |data| > 1 && items == [] {
      return TheyWin;
    } else if |data| <= 1 && items == [] {
      return Same;
    }
    hide Entry, CompareFrom;
    var dataLen := 0;
    for k := 0 to |items|
      invariant dataLen == |Entries(items[..k])|
    {
      assert items[..k + 1][..k] == items[..k];
      EntryLength(items[k]);
      dataLen := dataLen + 1 + |items[k].key| + (if items[k].value.Some? then |items[k].value.value| + 1 else 0);
    }
    assert items[..|items|] == items;
    if |data| > dataLen {
      return TheyWin;
    } else if |data| < dataLen {
      return WeWin;
    }
    var ours := new byte[|data|](_ => 0);
    var index := 0;
    for k := 0 to |items|
      invariant index == |Entries(items[..k])| <= |data|
      invariant ours[..index] == Entries(items[..k])
    {
      assert items[..k + 1][..k] == items[..k];
      EntriesGrow(items, k + 1);
      var l := AppendEntry(ours, index, items[k]);
      index := index + l;
    }
    assert ours[..index] == ours[..];
    v := CompareBytes(ours[..], data);
  }

  lemma EntryLength(i: Item)
    ensures |Entry(i)| == 1 + |i.key| + (if i.value.Some? then |i.value.value| + 1 else 0)
  {
  }

  /** A record of one byte has no items, or a single item with neither key nor value. */
  lemma OneByteRecord(x: seq<Item>)
    ensures |Record(x)| == 1 <==> x == [] || x == [Item([], None)]
  {
    if x != [] {
      var n := |x| - 1;
      var last := x[n];
      assert Entries(x) == Entries(x[..n]) + Entry(last);
      NothingPrinted(x[..n]);
      EntryLength(last);
      assert x == x[..n] + [last];
      if x == [Item([], None)] {
        assert x[..0] == [];
      }
    }
  }

  /** Both records have one byte, and at least one host does have an item. */
  predicate BareTie(x: seq<Item>, y: seq<Item>) {
    |Record(x)| == 1 && |Record(y)| == 1 && (x != [] || y != [])
  }

  lemma TxtVerdictCompares(x: seq<Item>, y: seq<Item>)
    ensures TxtVerdict(x, Record(y)) ==
              if x != [] && |Record(y)| == 1 then WeWin else Compare(Record(x), Record(y))
  {
    assert CompareFrom([0], [0], 0) == CompareFrom([0], [0], 1) == Same;
    OneByteRecord(x);
  }

  /** Two hosts that see each other's TXT record agree on the winner, or on its
      being the same, exactly unless both records have one byte and some host has
      an item: then a host with an item takes itself for the winner, whatever the
      other one takes. */
  lemma TxtTieBreakDecides(x: seq<Item>, y: seq<Item>)
    ensures TxtVerdict(y, Record(x)) == Opposite(TxtVerdict(x, Record(y))) <==> !BareTie(x, y)
    ensures TxtVerdict(x, Record(y)) == Same <==> Record(x) == Record(y) && !(x != [] && |Record(y)| == 1)
    ensures BareTie(x, y) ==> TxtVerdict(x, Record(y)) == if x != [] then WeWin else Same
  {
    hide Compare, TxtVerdict;
    TxtVerdictCompares(x, y);
    TxtVerdictCompares(y, x);
    CompareIsTotalOrder(Record(x), Record(y), []);
    OneByteRecord(x);
    OneByteRecord(y);
    LongerWins(Record(x), Record(y));
    OneZero(x);
    OneZero(y);
  }

  lemma LongerWins(x: seq<byte>, y: seq<byte>)
    ensures |x| > |y| ==> Compare(x, y) == WeWin
    ensures |x| < |y| ==> Compare(x, y) == TheyWin
  {
  }

  lemma OneZero(x: seq<Item>)
    ensures |Record(x)| == 1 ==> Record(x) == [0]
  {
    OneByteRecord(x);
    assert [Item([], None)][..0] == [];
  }

  // ---- SRV ----

  datatype Srv = Srv(priority: nat, weight: nat, port: nat)

  predicate IsSrv(s: Srv) {
    s.priority < 0x10000 && s.weight < 0x10000 && s.port < 0x10000
  }

  function U16(x: nat): (r: seq<byte>)
    requires x < 0x10000
    ensures |r| == 2
  {
    [x / 256, x % 256]
  }

  /** The data of an SRV record whose target is host.domain. */
  function SrvData(s: Srv, host: seq<byte>, domain: seq<byte>): (r: seq<byte>)
    requires IsSrv(s)
    ensures |r| == 9 + |host| + |domain|
  {
    U16(s.priority) + U16(s.weight) + U16(s.port) + [|host| % 256] + host + [|domain| % 256] + domain + [0]
  }

  function SrvVerdict(ours: Srv, ourHost: seq<byte>, theirs: Srv, host: seq<byte>, domain: seq<byte>): Verdict
    requires IsSrv(ours) && IsSrv(theirs)
  {
    if ourHost == [] then Same else Compare(SrvData(ours, ourHost, MdnsName.LOCAL), SrvData(theirs, host, domain))
  }

  method AppendU16(data: array<byte>, index: nat, x: nat)
    requires x < 0x10000 && index + 2 <= data.Length
    modifies data
    ensures data[..index + 2] == old(data[..index]) + U16(x)
  {
    data[index] := x / 256;
    data[index + 1] := x % 256;
    assert data[..index + 2] == data[..index] + [data[index], data[index + 1]];
  }

  method AppendByte(data: array<byte>, index: nat, b: byte)
    requires index < data.Length
    modifies data
    ensures data[..index + 1] == old(data[..index]) + [b]
  {
    data[index] := b;
    assert data[..index + 1] == data[..index] + [data[index]];
  }

  method AppendText(data: array<byte>, index: nat, text: seq<byte>)
    requires index + |text| <= data.Length
    modifies data
    ensures data[..index + |text|] == old(data[..index]) + text
  {
    forall k | 0 <= k < |text| {
      data[index + k] := text[k];
    }
    assert data[index..index + |text|] == text;
    assert data[..index + |text|] == data[..index] + data[index..index + |text|];
  }

  method BuildSrvData(s: Srv, host: seq<byte>, domain: seq<byte>) returns (data: array<byte>)
    requires IsSrv(s)
    ensures fresh(data) && data[..] == SrvData(s, host, domain)
  {
    hide U16;
    data := new byte[9 + |host| + |domain|](_ => 0);
    AppendU16(data, 0, s.priority);
    assert data[..2] == U16(s.priority);
    AppendU16(data, 2, s.weight);
    AppendU16(data, 4, s.port);
    AppendByte(data, 6, |host| % 256);
    AppendText(data, 7, host);
    AppendByte(data, 7 + |host|, |domain| % 256);
    AppendText(data, 8 + |host|, domain);
    AppendByte(data, 8 + |host| + |domain|, 0);
    assert data[..9 + |host| + |domain|] == data[..];
  }

  method CheckSrvCollision(ours: Srv, ourHost: seq<byte>, theirs: Srv, host: seq<byte>, domain: seq<byte>)
    returns (v: Verdict)
    requires IsSrv(ours) && IsSrv(theirs)
    ensures v == SrvVerdict(ours, ourHost, theirs, host, domain)
  {
    if ourHost == [] {
      return Same;
    }
    var ourLen := 14 + |ourHost|;
    var theirLen := 9 + |host| + |domain|;
    if theirLen > ourLen {
      return TheyWin;
    } else if theirLen < ourLen {
      return WeWin;
    }
    hide SrvData, CompareFrom;
    var ourData := BuildSrvData(ours, ourHost, MdnsName.LOCAL);
    var theirData := BuildSrvData(theirs, host, domain);
    v := CompareBytes(ourData[..], theirData[..]);
  }

  lemma U16Injective(x: nat, y: nat)
    requires x < 0x10000 && y < 0x10000 && U16(x) == U16(y)
    ensures x == y
  {
    assert U16(x)[0] == U16(y)[0] && U16(x)[1] == U16(y)[1];
  }

  lemma SrvDataInjective(x: Srv, xHost: seq<byte>, y: Srv, yHost: seq<byte>)
    requires IsSrv(x) && IsSrv(y) && SrvData(x, xHost, MdnsName.LOCAL) == SrvData(y, yHost, MdnsName.LOCAL)
    ensures x == y && xHost == yHost
  {
    var a, b := SrvData(x, xHost, MdnsName.LOCAL), SrvData(y, yHost, MdnsName.LOCAL);
    hide U16;
    assert a[0..2] == U16(x.priority) && b[0..2] == U16(y.priority);
    assert a[2..4] == U16(x.weight) && b[2..4] == U16(y.weight);
    assert a[4..6] == U16(x.port) && b[4..6] == U16(y.port);
    assert a[7..7 + |xHost|] == xHost && b[7..7 + |yHost|] == yHost;
    U16Injective(x.priority, y.priority);
    U16Injective(x.weight, y.weight);
    U16Injective(x.port, y.port);
  }

  /** Two hosts in domain "local" that see each other's SRV record never both win
      and never both lose; it is the same exactly when priority, weight, port and
      host name all are. */
  lemma SrvTieBreakDecides(x: Srv, xHost: seq<byte>, y: Srv, yHost: seq<byte>)
    requires IsSrv(x) && IsSrv(y) && xHost != [] && yHost != []
    ensures SrvVerdict(y, yHost, x, xHost, MdnsName.LOCAL) == Opposite(SrvVerdict(x, xHost, y, yHost, MdnsName.LOCAL))
    ensures SrvVerdict(x, xHost, y, yHost, MdnsName.LOCAL) == Same <==> x == y && xHost == yHost
  {
    hide SrvData, Compare;
    CompareIsTotalOrder(SrvData(x, xHost, MdnsName.LOCAL), SrvData(y, yHost, MdnsName.LOCAL), []);
    if SrvData(x, xHost, MdnsName.LOCAL) == SrvData(y, yHost, MdnsName.LOCAL) {
      SrvDataInjective(x, xHost, y, yHost);
    }
  }

  /** The first of the three numbers that differs is greater. */
  predicate GreaterNumbers(x: Srv, y: Srv) {
    || x.priority > y.priority
    || (x.priority == y.priority && x.weight > y.weight)
    || (x.priority == y.priority && x.weight == y.weight && x.port > y.port)
  }

  function SrvTail(host: seq<byte>, domain: seq<byte>): seq<byte> {
    [|host| % 256] + host + [|domain| % 256] + domain + [0]
  }

  lemma GreaterNumberFirst(a: nat, b: nat, x: seq<byte>, y: seq<byte>)
    requires a < 0x10000 && b < 0x10000 && |x| == |y|
    ensures Compare(U16(a) + x, U16(b) + y) == if a > b then WeWin else if a < b then TheyWin else Compare(x, y)
  {
    var u, v := U16(a) + x, U16(b) + y;
    assert u[0] == a / 256 && u[1] == a % 256 && v[0] == b / 256 && v[1] == b % 256;
    assert u[2..] == x && v[2..] == y;
    if a / 256 == b / 256 {
      assert CompareFrom(u, v, 0) == CompareFrom(u, v, 1);
      if a % 256 == b % 256 {
        SkipEqual(u, v, x, y, 0);
      }
    }
  }

  lemma {:induction false} SkipEqual(u: seq<byte>, v: seq<byte>, x: seq<byte>, y: seq<byte>, i: nat)
    requires |u| == |v| && |x| == |y| && |u| == |x| + 2 && i <= |x|
    requires u[2..] == x && v[2..] == y && u[0] == v[0] && u[1] == v[1]
    ensures CompareFrom(u, v, i + 2) == CompareFrom(x, y, i)
    ensures i == 0 ==> CompareFrom(u, v, 0) == CompareFrom(x, y, 0)
    decreases |x| - i
  {
    assert i < |x| ==> u[2..][i] == u[i + 2] && v[2..][i] == v[i + 2];
    if i < |x| {
      SkipEqual(u, v, x, y, i + 1);
    }
  }

  /** Between hosts of one name the greater priority wins, then the greater weight,
      then the greater port. */
  lemma GreaterNumbersWin(x: Srv, y: Srv, host: seq<byte>)
    requires IsSrv(x) && IsSrv(y) && host != []
    ensures SrvVerdict(x, host, y, host, MdnsName.LOCAL) == WeWin <==> GreaterNumbers(x, y)
  {
    var tail := SrvTail(host, MdnsName.LOCAL);
    CompareIsTotalOrder(tail, tail, []);
    var px, py := U16(x.port) + tail, U16(y.port) + tail;
    var wx, wy := U16(x.weight) + px, U16(y.weight) + py;
    GreaterNumberFirst(x.port, y.port, tail, tail);
    GreaterNumberFirst(x.weight, y.weight, px, py);
    GreaterNumberFirst(x.priority, y.priority, wx, wy);
    assert SrvData(x, host, MdnsName.LOCAL) == U16(x.priority) + wx;
    assert SrvData(y, host, MdnsName.LOCAL) == U16(y.priority) + wy;
  }

  lemma {:induction false} CommonFrontSkipped(front: seq<byte>, x: seq<byte>, y: seq<byte>, i: nat)
    requires |x| == |y| && i <= |front|
    ensures CompareFrom(front + x, front + y, i) == CompareFrom(front + x, front + y, |front|)
    decreases |front| - i
  {
    if i < |front| {
      CommonFrontSkipped(front, x, y, i + 1);
    }
  }

  lemma {:induction false} CommonBackIgnored(front: seq<byte>, x: seq<byte>, y: seq<byte>, back: seq<byte>, i: nat)
    requires |x| == |y| && i <= |x|
    ensures CompareFrom(front + x + back, front + y + back, |front| + i) == CompareFrom(x, y, i)
    decreases |x| - i
  {
    var u, v := front + x + back, front + y + back;
    if i < |x| {
      assert u[|front| + i] == x[i] && v[|front| + i] == y[i];
      CommonBackIgnored(front, x, y, back, i + 1);
    } else {
      SameBack(u, v, |front| + i);
    }
  }

  lemma {:induction false} SameBack(u: seq<byte>, v: seq<byte>, i: nat)
    requires |u| == |v| && i <= |u| && u[i..] == v[i..]
    ensures CompareFrom(u, v, i) == Same
    decreases |u| - i
  {
    if i < |u| {
      assert u[i] == u[i..][0] && v[i] == v[i..][0];
      assert u[i + 1..] == u[i..][1..] && v[i + 1..] == v[i..][1..];
      SameBack(u, v, i + 1);
    }
  }

  /** Between hosts in domain "local" with the same numbers the longer name wins,
      and of two names of one length the one with the greater byte where they first differ. */
  lemma GreaterHostWins(s: Srv, x: seq<byte>, y: seq<byte>)
    requires IsSrv(s) && x != [] && y != []
    ensures SrvVerdict(s, x, s, y, MdnsName.LOCAL) == WeWin <==>
              |x| > |y| || (|x| == |y| && exists k :: GreaterAt(x, y, k))
  {
    GreaterByteWins(x, y);
    hide GreaterAt;
    if |x| == |y| {
      var numbers := U16(s.priority) + U16(s.weight) + U16(s.port) + [|x| % 256];
      var back := [|MdnsName.LOCAL| % 256] + MdnsName.LOCAL + [0];
      assert SrvData(s, x, MdnsName.LOCAL) == numbers + x + back;
      assert SrvData(s, y, MdnsName.LOCAL) == numbers + y + back;
      hide SrvData, U16, CompareFrom;
      assert numbers + x + back == numbers + (x + back) && numbers + y + back == numbers + (y + back);
      CommonFrontSkipped(numbers, x + back, y + back, 0);
      CommonBackIgnored(numbers, x, y, back, 0);
    }
  }
}
