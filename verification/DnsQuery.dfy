/**
 DNS questions (src/dns/message.rs): `build_query_with_subnet` and `parse_question`, which must
 undo each other, and `skip_name`, which must step over the same name.

 Names are octet strings. The name normalization and the UTF-8 test of labels are parameters.
 */
module DnsQuery {
  import opened Basics
  import opened Octets
  import opened DnsMessage

  const DOT: byte := 46

  // ---------------------------------------------------------------- names and labels

  /** `split('.')`: one more label than there are dots. */
  function Split(name: Bytes): (labels: seq<Bytes>)
    ensures |labels| > 0
  {
    if name == [] then [[]]
    else
      var rest := Split(name[1..]);
      if name[0] == DOT then [[]] + rest else [[name[0]] + rest[0]] + rest[1..]
  }

  /** `join(".")`. */
  function Join(labels: seq<Bytes>): Bytes {
    if labels == [] then []
    else if |labels| == 1 then labels[0]
    else labels[0] + [DOT] + Join(labels[1..])
  }

  lemma {:induction false} JoinSplit(name: Bytes)
    ensures Join(Split(name)) == name
  {
    if name != [] {
      JoinSplit(name[1..]);
      var rest := Split(name[1..]);
      if name[0] == DOT {
        assert ([[]] + rest)[1..] == rest;
        assert Join([[]] + rest) == [] + [DOT] + Join(rest);
      } else {
        var labels := [[name[0]] + rest[0]] + rest[1..];
        assert labels[1..] == rest[1..];
        assert Join(labels) == [name[0]] + Join(rest);
      }
      assert name == [name[0]] + name[1..];
    }
  }

  predicate LabelOk(piece: Bytes) { 0 < |piece| <= 63 }

  ghost predicate LabelsOk(labels: seq<Bytes>) { forall i :: 0 <= i < |labels| ==> LabelOk(labels[i]) }

  /** Each label behind its length, without the closing zero. */
  function EncodeLabels(labels: seq<Bytes>): Bytes
    requires LabelsOk(labels)
  {
    if labels == [] then [] else [|labels[0]| as byte] + labels[0] + EncodeLabels(labels[1..])
  }

  lemma {:induction false} EncodeAppend(labels: seq<Bytes>, piece: Bytes)
    requires LabelsOk(labels) && LabelOk(piece)
    ensures LabelsOk(labels + [piece])
    ensures EncodeLabels(labels + [piece]) == EncodeLabels(labels) + ([|piece| as byte] + piece)
  {
    if labels == [] {
      assert [piece] == [] + [piece];
      assert EncodeLabels([piece]) == [|piece| as byte] + piece + [];
    } else {
      EncodeAppend(labels[1..], piece);
      assert (labels + [piece])[1..] == labels[1..] + [piece];
    }
  }

  // ---------------------------------------------------------------- building

  /** A client subnet: its family, prefix length and network octets. */
  datatype Subnet = Subnet(v6: bool, prefix: nat, network: Bytes)

  predicate SubnetOk(s: Subnet) {
    if s.v6 then s.prefix <= 128 && |s.network| == 16 else s.prefix <= 32 && |s.network| == 4
  }

  function AddressLength(s: Subnet): nat { (s.prefix + 7) / 8 }

  /** The OPT record with the client subnet option. */
  function SubnetRecord(s: Subnet): (r: Bytes)
    requires SubnetOk(s)
    ensures |r| == 19 + AddressLength(s)
  {
    [0] + (U16Bytes(OPT) + (U16Bytes(1232) + (U32Bytes(0) + (U16Bytes(8 + AddressLength(s)) +
    (U16Bytes(8) + U16Bytes(4 + AddressLength(s)) + U16Bytes(if s.v6 then 2 else 1) + [s.prefix as byte, 0]
     + s.network[..AddressLength(s)])))))
  }

  function Header(id: int, subnet: bool): (h: Bytes)
    requires 0 <= id < 0x1_0000
    ensures |h| == 12
  {
    U16Bytes(id) + [1, 0, 0, 1, 0, 0, 0, 0, 0, if subnet then 1 else 0]
  }

  function Tail(qtype: int, subnet: Option<Subnet>): Bytes
    requires 0 <= qtype < 0x1_0000 && (subnet.Some? ==> SubnetOk(subnet.value))
  {
    U16Bytes(qtype) + U16Bytes(1) + if subnet.Some? then SubnetRecord(subnet.value) else []
  }

  function Query(id: int, labels: seq<Bytes>, qtype: int, subnet: Option<Subnet>): Bytes
    requires 0 <= id < 0x1_0000 && 0 <= qtype < 0x1_0000 && LabelsOk(labels)
    requires subnet.Some? ==> SubnetOk(subnet.value)
  {
    Header(id, subnet.Some?) + (EncodeLabels(labels) + ([0] + Tail(qtype, subnet)))
  }

  /** What parsing the text of a client subnet gave. */
  predicate ParsedOk(parsed: Option<Result<Subnet>>) {
    parsed.Some? && parsed.value.Ok? ==> SubnetOk(parsed.value.value)
  }

  function Given(parsed: Option<Result<Subnet>>): Option<Subnet> {
    if parsed.Some? && parsed.value.Ok? then Some(parsed.value.value) else None
  }

  /**
   `build_query_with_subnet`: fails exactly when a label is empty or longer than 63 octets, or the
   text of the client subnet does not parse.
   */
  method BuildQuery(id: int, name: Bytes, qtype: int, parsed: Option<Result<Subnet>>) returns (r: Result<Bytes>)
    requires 0 <= id < 0x1_0000 && 0 <= qtype < 0x1_0000 && ParsedOk(parsed)
    ensures r.Ok? <==> LabelsOk(Split(name)) && parsed != Some(Err)
    ensures r.Ok? ==> r.value == Query(id, Split(name), qtype, Given(parsed))
  {
    hide Split, EncodeLabels, Header, Tail;
    var b := Header(id, parsed.Some?);
    var labels := Split(name);
    EncodeNothing();
    for i := 0 to |labels|
      invariant LabelsOk(labels[..i]) && b == Header(id, parsed.Some?) + EncodeLabels(labels[..i])
    {
      if labels[i] == [] || |labels[i]| > 63 {
        return Err;
      }
      EncodeAppend(labels[..i], labels[i]);
      assert labels[..i + 1] == labels[..i] + [labels[i]];
      b := b + [|labels[i]| as byte];
      b := b + labels[i];
    }
    assert labels[..|labels|] == labels;
    if parsed == Some(Err) {
      return Err;
    }
    b := b + [0];
    b := b + Tail(qtype, Given(parsed));
    return Ok(b);
  }

  lemma EncodeNothing()
    ensures EncodeLabels([]) == []
  {
  }

  // ---------------------------------------------------------------- parsing

  datatype Labels = Labels(labels: seq<Bytes>, end: nat)

  /** The label loop of `parse_question`. */
  function ReadLabels(utf8: Bytes -> bool, m: Bytes, p: nat): (r: Result<Labels>)
    ensures r.Ok? ==> p < r.value.end <= |m|
    decreases |m| - p
  {
    if p >= |m| then Err
    else
      var n := m[p] as int;
      if n == 0 then Ok(Labels([], p + 1))
      else if n > 63 || p + 1 + n > |m| || !utf8(m[p + 1..p + 1 + n]) then Err
      else
        match ReadLabels(utf8, m, p + 1 + n)
        case Err => Err
        case Ok(rest) => Ok(Labels([m[p + 1..p + 1 + n]] + rest.labels, rest.end))
  }

  datatype Question = Question(name: Bytes, qtype: int, end: nat)

  function QuestionOf(utf8: Bytes -> bool, normalize: Bytes -> Bytes, m: Bytes): Result<Question> {
    if |m| < 12 || U16(m, 4) == 0 then Err
    else
      match ReadLabels(utf8, m, 12)
      case Err => Err
      case Ok(l) =>
        if l.end + 4 > |m| then Err else Ok(Question(normalize(Join(l.labels)), U16(m, l.end), l.end + 4))
  }

  ghost function Behind(front: seq<Bytes>, r: Result<Labels>): Result<Labels> {
    match r
    case Err => Err
    case Ok(l) => Ok(Labels(front + l.labels, l.end))
  }

  lemma BehindNothing(r: Result<Labels>)
    ensures Behind([], r) == r
  {
    if r.Ok? { assert [] + r.value.labels == r.value.labels; }
  }

  lemma ReadStep(utf8: Bytes -> bool, m: Bytes, p: nat, front: seq<Bytes>)
    ensures
      Behind(front, ReadLabels(utf8, m, p)) ==
      if p >= |m| then Err
      else if m[p] == 0 then Ok(Labels(front, p + 1))
      else if m[p] as int > 63 || p + 1 + m[p] as int > |m| || !utf8(m[p + 1..p + 1 + m[p] as int]) then Err
      else Behind(front + [m[p + 1..p + 1 + m[p] as int]], ReadLabels(utf8, m, p + 1 + m[p] as int))
  {
    if p < |m| {
      var n := m[p] as int;
      if n == 0 {
        assert front + [] == front;
      } else if p + 1 + n <= |m| {
        var piece, rest := m[p + 1..p + 1 + n], ReadLabels(utf8, m, p + 1 + n);
        if rest.Ok? { assert front + ([piece] + rest.value.labels) == front + [piece] + rest.value.labels; }
      }
    }
  }

  /** `parse_question`. */
  method ParseQuestion(utf8: Bytes -> bool, normalize: Bytes -> Bytes, m: Bytes) returns (r: Result<Question>)
    ensures r == QuestionOf(utf8, normalize, m)
  {
    hide ReadLabels, Behind, Join;
    if |m| < 12 || U16(m, 4) == 0 {
      return Err;
    }
    var position := 12;
    var labels: seq<Bytes> := [];
    BehindNothing(ReadLabels(utf8, m, 12));
    while true
      invariant 12 <= position
      invariant ReadLabels(utf8, m, 12) == Behind(labels, ReadLabels(utf8, m, position))
      decreases |m| - position
    {
      ReadStep(utf8, m, position, labels);
      if position >= |m| {
        return Err;
      }
      var length := m[position] as int;
      position := position + 1;
      if length == 0 {
        break;
      }
      if length > 63 {
        return Err;
      }
      if position + length > |m| || !utf8(m[position..position + length]) {
        return Err;
      }
      labels := labels + [m[position..position + length]];
      position := position + length;
    }
    if position + 4 > |m| {
      return Err;
    }
    return Ok(Question(normalize(Join(labels)), U16(m, position), position + 4));
  }

  // ---------------------------------------------------------------- the round trip

  ghost predicate AllUtf8(utf8: Bytes -> bool, labels: seq<Bytes>) {
    forall i :: 0 <= i < |labels| ==> utf8(labels[i])
  }

  lemma {:induction false} LabelsRoundTrip(utf8: Bytes -> bool, m: Bytes, p: nat, labels: seq<Bytes>)
    requires LabelsOk(labels) && AllUtf8(utf8, labels) && Holds(m, p, EncodeLabels(labels))
    requires p + |EncodeLabels(labels)| < |m| && m[p + |EncodeLabels(labels)|] == 0
    ensures ReadLabels(utf8, m, p) == Ok(Labels(labels, p + |EncodeLabels(labels)| + 1))
    decreases |labels|
  {
    hide Holds;
    if labels != [] {
      var first, rest := labels[0], EncodeLabels(labels[1..]);
      assert LabelOk(first) && utf8(first);
      FirstLabel(m, p, first, rest);
      LabelsRoundTrip(utf8, m, p + 1 + |first|, labels[1..]);
      assert labels == [first] + labels[1..];
    }
  }

  /** What the label loop accepts is written-out labels and a zero octet. */
  lemma {:induction false} ReadIsWritten(utf8: Bytes -> bool, m: Bytes, p: nat)
    requires ReadLabels(utf8, m, p).Ok?
    ensures
      var l := ReadLabels(utf8, m, p).value;
      && LabelsOk(l.labels) && AllUtf8(utf8, l.labels)
      && l.end == p + |EncodeLabels(l.labels)| + 1 <= |m|
      && Holds(m, p, EncodeLabels(l.labels)) && m[l.end - 1] == 0
    decreases |m| - p
  {
    var n, l := m[p] as int, ReadLabels(utf8, m, p).value;
    if n > 0 {
      ReadIsWritten(utf8, m, p + 1 + n);
      var piece, rest := m[p + 1..p + 1 + n], l.labels[1..];
      assert EncodeLabels(l.labels) == ([m[p]] + piece) + EncodeLabels(rest);
      assert m[p..p + 1 + n] == [m[p]] + piece;
      HoldsJoin(m, p, [m[p]] + piece, EncodeLabels(rest));
    }
  }

  /** The message asks for the name of the labels: they stand behind its header, and a type and class follow. */
  ghost predicate Asks(utf8: Bytes -> bool, m: Bytes, labels: seq<Bytes>) {
    && |m| >= 12 && U16(m, 4) > 0 && LabelsOk(labels) && AllUtf8(utf8, labels)
    && 12 + |EncodeLabels(labels)| + 5 <= |m|
    && Holds(m, 12, EncodeLabels(labels)) && m[12 + |EncodeLabels(labels)|] == 0
  }

  /** A question is parsed exactly from the messages that ask for some name, and it is that name's. */
  lemma ParsedIff(utf8: Bytes -> bool, normalize: Bytes -> Bytes, m: Bytes, q: Question)
    ensures
      QuestionOf(utf8, normalize, m) == Ok(q) <==>
      exists labels ::
        && Asks(utf8, m, labels) && q.name == normalize(Join(labels))
        && q.end == 12 + |EncodeLabels(labels)| + 5 && q.qtype == U16(m, q.end - 4)
  {
    hide EncodeLabels, Join, U16, Holds;
    if QuestionOf(utf8, normalize, m) == Ok(q) {
      ReadIsWritten(utf8, m, 12);
      assert Asks(utf8, m, ReadLabels(utf8, m, 12).value.labels);
    }
    forall labels | Asks(utf8, m, labels)
      ensures ReadLabels(utf8, m, 12) == Ok(Labels(labels, 12 + |EncodeLabels(labels)| + 1))
    {
      LabelsRoundTrip(utf8, m, 12, labels);
    }
  }

  lemma FirstLabel(m: Bytes, p: nat, first: Bytes, rest: Bytes)
    requires LabelOk(first) && Holds(m, p, [|first| as byte] + first + rest)
    ensures m[p] == |first| as byte && p + 1 + |first| <= |m| && m[p + 1..p + 1 + |first|] == first
    ensures Holds(m, p + 1 + |first|, rest)
  {
    assert [|first| as byte] + first + rest == [|first| as byte] + (first + rest);
    HoldsFirst(m, p, |first| as byte, first + rest);
    HoldsSplit(m, p + 1, first, rest);
  }

  /** Where the parts of a query stand. */
  lemma QueryParts(id: int, labels: seq<Bytes>, qtype: int, subnet: Option<Subnet>)
    requires 0 <= id < 0x1_0000 && 0 <= qtype < 0x1_0000 && LabelsOk(labels)
    requires subnet.Some? ==> SubnetOk(subnet.value)
    ensures
      var m, n := Query(id, labels, qtype, subnet), |EncodeLabels(labels)|;
      && |m| == 12 + n + 1 + |Tail(qtype, subnet)|
      && m[..12] == Header(id, subnet.Some?)
      && m[12..12 + n] == EncodeLabels(labels)
      && m[12 + n] == 0
      && m[12 + n + 1..] == Tail(qtype, subnet)
  {
    hide Header, EncodeLabels, Tail;
  }

  lemma HeaderFields(m: Bytes, id: int, subnet: bool)
    requires 0 <= id < 0x1_0000 && |m| >= 12 && m[..12] == Header(id, subnet)
    ensures U16(m, 0) == id && U16(m, 4) == 1 && RecordCount(m) == if subnet then 1 else 0
  {
    var h := Header(id, subnet);
    assert forall i :: 0 <= i < 12 ==> m[i] == m[..12][i];
    assert h[..2] == U16Bytes(id);
  }

  lemma TailType(m: Bytes, p: nat, qtype: int, subnet: Option<Subnet>)
    requires 0 <= qtype < 0x1_0000 && (subnet.Some? ==> SubnetOk(subnet.value))
    requires p <= |m| && m[p..] == Tail(qtype, subnet)
    ensures p + 4 <= |m| && U16(m, p) == qtype
  {
    hide SubnetRecord;
    assert m[p..][..2] == U16Bytes(qtype);
    assert m[p] == m[p..][0] && m[p + 1] == m[p..][1];
  }

  /** `parse_question` undoes `build_query_with_subnet`, for every name that can be built. */
  lemma QueryRoundTrip(
    utf8: Bytes -> bool, normalize: Bytes -> Bytes, id: int, name: Bytes, qtype: int, subnet: Option<Subnet>)
    requires 0 <= id < 0x1_0000 && 0 <= qtype < 0x1_0000 && (subnet.Some? ==> SubnetOk(subnet.value))
    requires LabelsOk(Split(name)) && AllUtf8(utf8, Split(name))
    ensures
      var m := Query(id, Split(name), qtype, subnet);
      U16(m, 0) == id &&
      QuestionOf(utf8, normalize, m) == Ok(Question(normalize(name), qtype, 12 + |EncodeLabels(Split(name))| + 5))
  {
    hide Split, EncodeLabels, Query, Header, Tail, ReadLabels, Join, RecordCount, U16;
    var labels := Split(name);
    var m, n := Query(id, labels, qtype, subnet), |EncodeLabels(labels)|;
    QueryParts(id, labels, qtype, subnet);
    HeaderFields(m, id, subnet.Some?);
    TailType(m, 12 + n + 1, qtype, subnet);
    LabelsRoundTrip(utf8, m, 12, labels);
    JoinSplit(name);
  }

  // ---------------------------------------------------------------- stepping over the name

  /**
   `skip_name` ends where the label loop ends, but gives up after 127 labels, a limit that neither
   the builder nor the parser of questions has.
   */
  lemma {:induction false} SkipAgreesIff(utf8: Bytes -> bool, m: Bytes, p: nat, passed: nat)
    requires ReadLabels(utf8, m, p).Ok? && passed <= 127
    ensures
      var l := ReadLabels(utf8, m, p).value;
      SkipName(m, p, passed) == if passed + |l.labels| <= 127 then Ok(l.end) else Err
    decreases |m| - p
  {
    var n := m[p] as int;
    if n != 0 && passed < 127 {
      SkipAgreesIff(utf8, m, p + 1 + n, passed + 1);
    }
  }

  lemma SubnetFields(s: Subnet)
    requires SubnetOk(s)
    ensures
      var r := SubnetRecord(s);
      && r[0] == 0 && r[1..3] == U16Bytes(OPT)
      && r[5..9] == U32Bytes(0) && r[9..11] == U16Bytes(8 + AddressLength(s))
  {
    hide U16Bytes, U32Bytes, U16, U32;
    var more := U16Bytes(8) + U16Bytes(4 + AddressLength(s)) + U16Bytes(if s.v6 then 2 else 1) + [s.prefix as byte, 0]
                + s.network[..AddressLength(s)];
    assert SubnetRecord(s) ==
           [0] + (U16Bytes(OPT) + (U16Bytes(1232) + (U32Bytes(0) + (U16Bytes(8 + AddressLength(s)) + more))));
  }

  /** The OPT record of a query, as the record walk sees it. */
  lemma SubnetWalk(m: Bytes, p: nat, s: Subnet)
    requires SubnetOk(s) && p <= |m| && m[p..] == SubnetRecord(s)
    ensures FirstRecord(m, p) == Ok(Located(Record(p + 5, OPT, 0), |m|))
  {
    hide SubnetRecord, U16, U32, U16Bytes, U32Bytes;
    var n := AddressLength(s);
    SubnetFields(s);
    assert m[p] == m[p..][0];
    assert m[p + 1..p + 3] == m[p..][1..3] && m[p + 5..p + 9] == m[p..][5..9] && m[p + 9..p + 11] == m[p..][9..11];
    U16Held(m, p + 1, U16Bytes(OPT));
    U32Held(m, p + 5, U32Bytes(0));
    U16Held(m, p + 9, U16Bytes(8 + n));
    assert SkipName(m, p, 0) == Ok(p + 1);
  }

  /**
   The record walk accepts a built query exactly when its name has at most 127 labels, and then
   finds no record but the OPT record of a client subnet.
   */
  lemma QueryWalk(id: int, labels: seq<Bytes>, qtype: int, subnet: Option<Subnet>)
    requires 0 <= id < 0x1_0000 && 0 <= qtype < 0x1_0000 && LabelsOk(labels)
    requires subnet.Some? ==> SubnetOk(subnet.value)
    ensures
      var m, end := Query(id, labels, qtype, subnet), 12 + |EncodeLabels(labels)| + 5;
      TtlOffsets(m) ==
      if |labels| > 127 then Err else Ok(if subnet.Some? then [Record(end + 5, OPT, 0)] else [])
  {
    hide EncodeLabels, Query, Header, Tail, ReadLabels, RecordCount, U16, FirstRecord, SubnetRecord;
    var m, n := Query(id, labels, qtype, subnet), |EncodeLabels(labels)|;
    var end := 12 + n + 5;
    QueryParts(id, labels, qtype, subnet);
    HeaderFields(m, id, subnet.Some?);
    TailType(m, 12 + n + 1, qtype, subnet);
    LabelsRoundTrip(_ => true, m, 12, labels);
    SkipAgreesIff(_ => true, m, 12, 0);
    OneQuestion(m, 12);
    if |labels| <= 127 {
      if subnet.Some? {
        TailRecord(m, 12 + n + 1, qtype, subnet.value);
        SubnetWalk(m, end, subnet.value);
        OneRecord(m, end);
      }
    }
  }

  lemma TailRecord(m: Bytes, p: nat, qtype: int, s: Subnet)
    requires 0 <= qtype < 0x1_0000 && SubnetOk(s) && p <= |m| && m[p..] == Tail(qtype, Some(s))
    ensures p + 4 <= |m| && m[p + 4..] == SubnetRecord(s)
  {
    hide SubnetRecord;
    assert m[p + 4..] == m[p..][4..];
  }

  lemma OneQuestion(m: Bytes, p: nat)
    ensures SkipQuestions(m, p, 1) ==
            var r := SkipName(m, p, 0);
            if r.Ok? && r.value + 4 <= |m| then Ok(r.value + 4) else Err
  {
    hide SkipName;
  }

  lemma OneRecord(m: Bytes, p: nat)
    ensures Records(m, p, 1) == var r := FirstRecord(m, p); if r.Ok? then Ok([r.value.record]) else Err
  {
    hide FirstRecord;
    var r := FirstRecord(m, p);
    if r.Ok? { assert [r.value.record] + [] == [r.value.record]; }
  }

  // ---------------------------------------------------------------- a name that cannot be stepped over

  /** `n` labels of one octet each, joined by dots. */
  function LongName(n: nat): (name: Bytes)
    ensures |name| == if n == 0 then 0 else 2 * n - 1
  {
    if n == 0 then [] else if n == 1 then [97] else [97, DOT] + LongName(n - 1)
  }

  function LongLabels(n: nat): (labels: seq<Bytes>)
    ensures |labels| == n && forall i :: 0 <= i < n ==> labels[i] == [97]
  {
    seq(n, i requires 0 <= i < n => [97])
  }

  lemma SplitFirst(x: byte, rest: Bytes)
    ensures Split([x] + rest) ==
            if x == DOT then [[]] + Split(rest) else [[x] + Split(rest)[0]] + Split(rest)[1..]
  {
    assert ([x] + rest)[1..] == rest;
  }

  lemma {:induction false} SplitLong(n: nat)
    requires n > 0
    ensures Split(LongName(n)) == LongLabels(n)
  {
    hide Split;
    SplitEmpty();
    if n == 1 {
      SplitFirst(97, []);
      assert [97] + [] == LongName(1);
      assert [[97] + [[]][0]] + [[]][1..] == LongLabels(1);
    } else {
      SplitLong(n - 1);
      var rest := LongName(n - 1);
      SplitFirst(DOT, rest);
      SplitFirst(97, [DOT] + rest);
      assert [97] + ([DOT] + rest) == LongName(n);
      var tail := [[]] + LongLabels(n - 1);
      assert [97] + tail[0] == [97] && tail[1..] == LongLabels(n - 1);
      assert [[97]] + LongLabels(n - 1) == LongLabels(n);
    }
  }

  lemma SplitEmpty()
    ensures Split([]) == [[]]
  {
  }

  /** Built, parsed back, and yet refused by the record walk. */
  ghost predicate NotSteppedOver(utf8: Bytes -> bool, normalize: Bytes -> Bytes, name: Bytes) {
    LabelsOk(Split(name)) &&
    var m := Query(7, Split(name), 1, None);
    && QuestionOf(utf8, normalize, m) == Ok(Question(normalize(name), 1, |m|))
    && TtlOffsets(m) == Err
  }

  lemma LongNameNotSteppedOver(utf8: Bytes -> bool, normalize: Bytes -> Bytes, n: nat)
    requires n > 127 && utf8([97])
    ensures NotSteppedOver(utf8, normalize, LongName(n))
  {
    hide LongName, Split, LongLabels, EncodeLabels, QuestionOf, TtlOffsets, Query;
    SplitLong(n);
    QueryRoundTrip(utf8, normalize, 7, LongName(n), 1, None);
    QueryParts(7, LongLabels(n), 1, None);
    QueryWalk(7, LongLabels(n), 1, None);
  }

  /** The shortest such name: 128 labels, 255 octets. */
  lemma NameOf128Labels(utf8: Bytes -> bool, normalize: Bytes -> Bytes)
    requires utf8([97])
    ensures exists name :: |name| == 255 && |Split(name)| == 128 && NotSteppedOver(utf8, normalize, name)
  {
    hide LongName, Split, LongLabels, NotSteppedOver;
    var name := LongName(128);
    SplitLong(128);
    LongNameNotSteppedOver(utf8, normalize, 128);
    assert |name| == 255 && |Split(name)| == 128 && NotSteppedOver(utf8, normalize, name);
  }
}
