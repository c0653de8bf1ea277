/** Names whose host takes up several labels, such as names of reverse lookups:
    the labels are joined with dots and cut to the 64 characters a buffer holds. */
module MdnsHostNames {
  import opened Bytes
  import opened MdnsName
  import opened MdnsNameReading

  function First64(s: seq<byte>): (r: seq<byte>) {
    if |s| <= 64 then s else s[..64]
  }

  /** The labels with a dot between each two. */
  function Dotted(labels: seq<seq<byte>>): seq<byte> {
    if labels == [] then []
    else if |labels| == 1 then labels[0]
    else Dotted(labels[..|labels| - 1]) + [46] + labels[|labels| - 1]
  }

  /** The words that end a host: local, arpa, ip6 and in-addr. */
  predicate EndsHost(text: CString) {
    || ReadsAs(text, [108, 111, 99, 97, 108]) || ReadsAs(text, [97, 114, 112, 97])
    || ReadsAs(text, [105, 112, 54]) || ReadsAs(text, [105, 110, 45, 97, 100, 100, 114])
  }

  /** A label that belongs to the host even behind another one. */
  predicate HostLabel(l: seq<byte>) {
    1 <= |l| <= 63 && 0 !in l && l[0] != 95 && !EndsHost(l)
  }

  lemma ExtendsHostExactly(text: CString)
    ensures ExtendsHost(text) <==> !(text != [] && text[0] == 95) && !EndsHost(text)
  {
    ReadsAsSame(text, LOCAL);
    ReadsAsSame(text, ARPA);
    ReadsAsSame(text, IP6);
    ReadsAsSame(text, IN_ADDR);
    hide ReadsAs, SameIgnoringCase;
  }

  lemma CutTwice(x: seq<byte>, y: seq<byte>)
    ensures First64(First64(x) + y) == First64(x + y)
  {
    if |x| > 64 {
      assert (x[..64] + y)[..64] == x[..64] == (x + y)[..64];
    }
  }

  lemma ConcatenatedCuts(x: CString, y: CString)
    ensures Concatenated(x, y) == First64(x + y)
  {
  }

  lemma OneMoreHostLabel(host: seq<byte>, text: seq<byte>)
    requires HostLabel(text)
    ensures WithLabel(Name(1, false, First64(host), [], [], [], false), text)
         == Name(1, false, First64(host + [46] + text), [], [], [], false)
  {
    PlainText(text);
    ExtendsHostExactly(text);
    ConcatenatedCuts(First64(host), [DOT]);
    ConcatenatedCuts(First64(host + [46]), text);
    CutTwice(host, [46]);
    CutTwice(host + [46], text);
    hide UpToZero, ExtendsHost, EndsHost, Concatenated, First64;
  }

  /** Any number of such labels behind a first one that is no subtype marker. */
  lemma {:induction false} HostJoined(labels: seq<seq<byte>>)
    requires labels != [] && IsPlain(labels[0]) && forall i | 1 <= i < |labels| :: HostLabel(labels[i])
    ensures WithLabels(BLANK, labels) == Name(1, false, First64(Dotted(labels)), [], [], [], false)
    decreases |labels|
  {
    hide WithLabels, WithLabel, IsPlain, HostLabel, First64;
    var k := |labels| - 1;
    if k == 0 {
      FirstHostLabel(labels[0]);
      assert labels == [labels[0]];
    } else {
      WithLabelsLast(BLANK, labels[..k], labels[k]);
      assert labels[..k] + [labels[k]] == labels;
      HostJoined(labels[..k]);
      OneMoreHostLabel(Dotted(labels[..k]), labels[k]);
    }
  }

  lemma FirstHostLabel(text: seq<byte>)
    requires IsPlain(text)
    ensures WithLabels(BLANK, [text]) == Name(1, false, First64(text), [], [], [], false)
  {
    PlainText(text);
    WithLabelsLast(BLANK, [], text);
    assert [] + [text] == [text];
    hide UpToZero, SameIgnoringCase;
  }

  /** A host of several labels in domain "local" comes out joined with dots, cut to 64 characters. */
  lemma DottedHostParsed(labels: seq<seq<byte>>)
    requires labels != [] && IsPlain(labels[0]) && forall i | 1 <= i < |labels| :: HostLabel(labels[i])
    ensures Arranged(WithLabels(BLANK, labels + [[108, 111, 99, 97, 108]]))
         == Name(2, false, First64(Dotted(labels)), [], [], [108, 111, 99, 97, 108], false)
  {
    hide WithLabels, WithLabel, Arranged, IsPlain, HostLabel, First64, Dotted;
    HostJoined(labels);
    WithLabelsLast(BLANK, labels, [108, 111, 99, 97, 108]);
    LocalBehindHost(First64(Dotted(labels)));
  }

  lemma LocalBehindHost(host: CString)
    ensures Arranged(WithLabel(Name(1, false, host, [], [], [], false), [108, 111, 99, 97, 108]))
         == Name(2, false, host, [], [], [108, 111, 99, 97, 108], false)
  {
    LocalIsNotSub();
    hide UpToZero, SameIgnoringCase, ExtendsHost;
  }

  /** A reverse lookup, such as 1.0.168.192.in-addr.arpa: the labels before
      "in-addr" or "ip6" come out as one dotted text, in the place of the service. */
  lemma ReverseNameParsed(labels: seq<seq<byte>>, root: CString)
    requires labels != [] && IsPlain(labels[0]) && forall i | 1 <= i < |labels| :: HostLabel(labels[i])
    requires root == [105, 112, 54] || root == [105, 110, 45, 97, 100, 100, 114]
    ensures Arranged(WithLabels(BLANK, labels + [root, [97, 114, 112, 97]]))
         == Name(3, false, [], First64(Dotted(labels)), root, [97, 114, 112, 97], false)
  {
    hide WithLabels, WithLabel, Arranged, IsPlain, HostLabel, First64, Dotted;
    var arpa: CString := [97, 114, 112, 97];
    HostJoined(labels);
    WithLabelsLast(BLANK, labels, root);
    WithLabelsLast(BLANK, labels + [root], arpa);
    assert labels + [root] + [arpa] == labels + [root, arpa];
    RootBehindHost(First64(Dotted(labels)), root);
  }

  lemma RootBehindHost(host: CString, root: CString)
    requires root == [105, 112, 54] || root == [105, 110, 45, 97, 100, 100, 114]
    ensures var n := WithLabel(WithLabel(Name(1, false, host, [], [], [], false), root), [97, 114, 112, 97]);
            Arranged(n) == Name(3, false, [], host, root, [97, 114, 112, 97], false)
  {
    hide UpToZero, ExtendsHost, SameIgnoringCase;
    assert UpToZero(root) == root by {
      PlainText(root);
    }
    RootEndsHost(root);
    ArpaIsNotSub();
  }

  lemma ArpaIsNotSub()
    ensures UpToZero(ARPA) == ARPA && !SameIgnoringCase(ARPA, SUB) && SameIgnoringCase(ARPA, ARPA)
  {
    PlainText(ARPA);
    assert ARPA[0] == 97 && SUB[0] == 95 && Lower(97) == 97 && Lower(95) == 95;
  }

  lemma RootEndsHost(root: CString)
    requires root == [105, 112, 54] || root == [105, 110, 45, 97, 100, 100, 114]
    ensures !ExtendsHost(root) && !SameIgnoringCase(root, SUB)
  {
    ExtendsHostExactly(root);
    assert EndsHost(root);
    hide ExtendsHost, EndsHost;
    assert root[0] == 105 && SUB[0] == 95 && Lower(105) == 105 && Lower(95) == 95;
  }
}
