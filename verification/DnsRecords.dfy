/**
 Messages written out from their questions and records (sections 3.2.1 and 4.1 of RFC 1035), as a
 reference for the record walk and the TTL edits of src/dns/message.rs.
 */
module DnsRecords {
  import opened Basics
  import opened Octets
  import opened DnsMessage
  import DnsQuery

  // ---------------------------------------------------------------- the reference

  /** An owner name: labels, then the root or a compression pointer. */
  datatype Owner = Owner(labels: seq<Bytes>, pointer: Option<nat>)

  datatype Question = Question(owner: Owner, qtype: nat, class_: nat)

  datatype Resource = Resource(owner: Owner, kind: nat, class_: nat, ttl: nat, data: Bytes)

  ghost predicate OwnerOk(o: Owner) {
    DnsQuery.LabelsOk(o.labels) && (o.pointer.Some? ==> o.pointer.value < 0x4000)
  }

  ghost predicate QuestionOk(q: Question) {
    OwnerOk(q.owner) && q.qtype < 0x1_0000 && q.class_ < 0x1_0000
  }

  ghost predicate ResourceOk(r: Resource) {
    OwnerOk(r.owner) && r.kind < 0x1_0000 && r.class_ < 0x1_0000 && r.ttl <= U32_MAX && |r.data| < 0x1_0000
  }

  ghost function OwnerEnd(o: Owner): Bytes
    requires OwnerOk(o)
  {
    if o.pointer.None? then [0] else U16Bytes(0xc000 + o.pointer.value)
  }

  ghost function OwnerBytes(o: Owner): Bytes
    requires OwnerOk(o)
  {
    DnsQuery.EncodeLabels(o.labels) + OwnerEnd(o)
  }

  ghost function QuestionBytes(q: Question): Bytes
    requires QuestionOk(q)
  {
    OwnerBytes(q.owner) + (U16Bytes(q.qtype) + U16Bytes(q.class_))
  }

  /** Owner, type and class: what stands before the TTL. */
  ghost function Front(r: Resource): Bytes
    requires ResourceOk(r)
  {
    OwnerBytes(r.owner) + (U16Bytes(r.kind) + U16Bytes(r.class_))
  }

  ghost function ResourceBytes(r: Resource): Bytes
    requires ResourceOk(r)
  {
    Front(r) + (U32Bytes(r.ttl) + (U16Bytes(|r.data|) + r.data))
  }

  ghost predicate QuestionsOk(qs: seq<Question>) { forall i :: 0 <= i < |qs| ==> QuestionOk(qs[i]) }

  ghost predicate ResourcesOk(rs: seq<Resource>) { forall i :: 0 <= i < |rs| ==> ResourceOk(rs[i]) }

  ghost function QuestionsBytes(qs: seq<Question>): Bytes
    requires QuestionsOk(qs)
  {
    if qs == [] then [] else QuestionBytes(qs[0]) + QuestionsBytes(qs[1..])
  }

  ghost function ResourcesBytes(rs: seq<Resource>): Bytes
    requires ResourcesOk(rs)
  {
    if rs == [] then [] else ResourceBytes(rs[0]) + ResourcesBytes(rs[1..])
  }

  /** What the walk must find in records that start at `p`. */
  ghost function Fields(rs: seq<Resource>, p: nat): seq<Record>
    requires ResourcesOk(rs)
  {
    if rs == [] then []
    else [Record(p + |Front(rs[0])|, rs[0].kind, rs[0].ttl)] + Fields(rs[1..], p + |ResourceBytes(rs[0])|)
  }

  /** The longest name the walk steps over. */
  predicate Short(o: Owner) { |o.labels| <= 127 }

  ghost predicate AllShort(qs: seq<Question>, rs: seq<Resource>) {
    (forall i :: 0 <= i < |qs| ==> Short(qs[i].owner)) && (forall i :: 0 <= i < |rs| ==> Short(rs[i].owner))
  }

  // ---------------------------------------------------------------- the walk over names, questions and records

  lemma SkipEnd(m: Bytes, p: nat, o: Owner, passed: nat)
    requires OwnerOk(o) && Holds(m, p, OwnerEnd(o))
    ensures SkipName(m, p, passed) == Ok(p + |OwnerEnd(o)|)
  {
    if o.pointer.None? {
      HoldsFirst(m, p, 0, []);
    } else {
      var v := 0xc000 + o.pointer.value;
      assert U16Bytes(v) == [(v / 256) as byte] + [(v % 256) as byte];
      HoldsFirst(m, p, (v / 256) as byte, [(v % 256) as byte]);
    }
  }

  lemma {:induction false} SkipOwner(m: Bytes, p: nat, o: Owner, passed: nat)
    requires OwnerOk(o) && Holds(m, p, OwnerBytes(o)) && passed <= 127
    ensures SkipName(m, p, passed) == if passed + |o.labels| <= 127 then Ok(p + |OwnerBytes(o)|) else Err
    decreases |o.labels|
  {
    hide Holds, OwnerEnd;
    if o.labels == [] {
      assert OwnerBytes(o) == OwnerEnd(o);
      SkipEnd(m, p, o, passed);
    } else {
      var first, rest := o.labels[0], o.(labels := o.labels[1..]);
      assert DnsQuery.LabelOk(first);
      assert OwnerEnd(rest) == OwnerEnd(o) by { SameEnd(o, rest); }
      assert OwnerBytes(o) == [|first| as byte] + first + OwnerBytes(rest);
      DnsQuery.FirstLabel(m, p, first, OwnerBytes(rest));
      if passed < 127 { SkipOwner(m, p + 1 + |first|, rest, passed + 1); }
    }
  }

  lemma SameEnd(o: Owner, o': Owner)
    requires OwnerOk(o) && OwnerOk(o') && o.pointer == o'.pointer
    ensures OwnerEnd(o) == OwnerEnd(o')
  {
  }

  lemma {:induction false} QuestionsWalk(m: Bytes, p: nat, qs: seq<Question>)
    requires QuestionsOk(qs) && Holds(m, p, QuestionsBytes(qs))
    ensures SkipQuestions(m, p, |qs|) == if AllShort(qs, []) then Ok(p + |QuestionsBytes(qs)|) else Err
    decreases |qs|
  {
    hide SkipName, OwnerBytes, Holds;
    if qs != [] {
      var q := qs[0];
      assert QuestionOk(q);
      var fields := U16Bytes(q.qtype) + U16Bytes(q.class_);
      HoldsSplit(m, p, QuestionBytes(q), QuestionsBytes(qs[1..]));
      HoldsSplit(m, p, OwnerBytes(q.owner), fields);
      HoldsRoom(m, p + |OwnerBytes(q.owner)|, fields);
      SkipOwner(m, p, q.owner, 0);
      QuestionsWalk(m, p + |QuestionBytes(q)|, qs[1..]);
    }
  }

  lemma HoldsRoom(m: Bytes, p: nat, b: Bytes)
    requires Holds(m, p, b)
    ensures p + |b| <= |m|
  {
  }

  lemma ResourceWalk(m: Bytes, p: nat, r: Resource)
    requires ResourceOk(r) && Holds(m, p, ResourceBytes(r))
    ensures FirstRecord(m, p) ==
            if Short(r.owner) then Ok(Located(Record(p + |Front(r)|, r.kind, r.ttl), p + |ResourceBytes(r)|)) else Err
  {
    hide SkipName, OwnerBytes, Holds, U16, U32, U16Bytes, U32Bytes;
    var back := U16Bytes(|r.data|) + r.data;
    var q, f := p + |OwnerBytes(r.owner)|, p + |Front(r)|;
    HoldsRoom(m, p, ResourceBytes(r));
    HoldsSplit(m, p, Front(r), U32Bytes(r.ttl) + back);
    HoldsSplit(m, p, OwnerBytes(r.owner), U16Bytes(r.kind) + U16Bytes(r.class_));
    HoldsSplit(m, q, U16Bytes(r.kind), U16Bytes(r.class_));
    HoldsSplit(m, f, U32Bytes(r.ttl), back);
    HoldsSplit(m, f + 4, U16Bytes(|r.data|), r.data);
    SkipOwner(m, p, r.owner, 0);
    U16Held(m, q, U16Bytes(r.kind));
    U32Held(m, f, U32Bytes(r.ttl));
    U16Held(m, f + 4, U16Bytes(|r.data|));
  }

  lemma {:induction false} ResourcesWalk(m: Bytes, p: nat, rs: seq<Resource>)
    requires ResourcesOk(rs) && Holds(m, p, ResourcesBytes(rs))
    ensures Records(m, p, |rs|) == if AllShort([], rs) then Ok(Fields(rs, p)) else Err
    decreases |rs|
  {
    hide FirstRecord, ResourceBytes, Front, Holds, Laid;
    if rs != [] {
      assert ResourceOk(rs[0]);
      HoldsSplit(m, p, ResourceBytes(rs[0]), ResourcesBytes(rs[1..]));
      ResourceWalk(m, p, rs[0]);
      ResourcesWalk(m, p + |ResourceBytes(rs[0])|, rs[1..]);
    }
  }

  // ---------------------------------------------------------------- whole messages

  /** Identifier and flags, the questions, and the three sections of records. */
  datatype Message = Message(
    head: Bytes, questions: seq<Question>, answers: seq<Resource>, authority: seq<Resource>, additional: seq<Resource>)
  {
    function Resources(): seq<Resource> { answers + authority + additional }
  }

  ghost predicate MessageOk(x: Message) {
    && |x.head| == 4
    && |x.questions| < 0x1_0000 && |x.answers| < 0x1_0000 && |x.authority| < 0x1_0000 && |x.additional| < 0x1_0000
    && QuestionsOk(x.questions) && ResourcesOk(x.Resources())
  }

  ghost function Header(x: Message): (h: Bytes)
    requires MessageOk(x)
    ensures |h| == 12
  {
    x.head + (U16Bytes(|x.questions|) + (U16Bytes(|x.answers|) + (U16Bytes(|x.authority|) + U16Bytes(|x.additional|))))
  }

  ghost function Before(x: Message): Bytes
    requires MessageOk(x)
  {
    Header(x) + QuestionsBytes(x.questions)
  }

  ghost function MessageBytes(x: Message): Bytes
    requires MessageOk(x)
  {
    Before(x) + ResourcesBytes(x.Resources())
  }

  lemma HeaderCounts(m: Bytes, x: Message)
    requires MessageOk(x) && Holds(m, 0, Header(x))
    ensures |m| >= 12 && U16(m, 4) == |x.questions| && RecordCount(m) == |x.Resources()|
  {
    hide U16, U16Bytes, Holds;
    var q, a, n, r := U16Bytes(|x.questions|), U16Bytes(|x.answers|), U16Bytes(|x.authority|), U16Bytes(|x.additional|);
    HoldsRoom(m, 0, Header(x));
    HoldsSplit(m, 0, x.head, q + (a + (n + r)));
    HoldsSplit(m, 4, q, a + (n + r));
    HoldsSplit(m, 6, a, n + r);
    HoldsSplit(m, 8, n, r);
    U16Held(m, 4, q);
    U16Held(m, 6, a);
    U16Held(m, 8, n);
    U16Held(m, 10, r);
  }

  lemma HoldsPrefix(b: Bytes, rest: Bytes)
    ensures Holds(b + rest, 0, b)
  {
  }

  /**
   The walk finds exactly the records of a message, in order, each with its type, its TTL and where
   that TTL stands; it refuses the message exactly when some name has more than 127 labels. Octets
   behind the last record are ignored.
   */
  lemma MessageWalk(x: Message, rest: Bytes)
    requires MessageOk(x)
    ensures TtlOffsets(MessageBytes(x) + rest) ==
            if AllShort(x.questions, x.Resources()) then Ok(Fields(x.Resources(), |Before(x)|)) else Err
  {
    hide Holds, Header, RecordCount, U16, Records, SkipQuestions, Fields, ResourcesBytes, QuestionsBytes;
    var m, rs := MessageBytes(x) + rest, x.Resources();
    HoldsPrefix(MessageBytes(x), rest);
    HoldsSplit(m, 0, Before(x), ResourcesBytes(rs));
    HoldsSplit(m, 0, Header(x), QuestionsBytes(x.questions));
    HeaderCounts(m, x);
    QuestionsWalk(m, 12, x.questions);
    ResourcesWalk(m, |Before(x)|, rs);
  }

  // ---------------------------------------------------------------- built queries

  datatype ClientSubnet = ClientSubnet(family: nat, sourcePrefix: nat, scopePrefix: nat, address: Bytes)

  /** The client subnet option that is the data of an OPT record (section 6 of RFC 7871). */
  function ReadSubnet(data: Bytes): Result<ClientSubnet> {
    if |data| < 8 || U16(data, 0) != 8 || U16(data, 2) != |data| - 4 then Err
    else Ok(ClientSubnet(U16(data, 4), data[6] as nat, data[7] as nat, data[8..]))
  }

  /** The OPT record of a subnet: root owner, 1232 octets of payload, no flags, one option. */
  lemma SubnetIsRecord(s: DnsQuery.Subnet) returns (r: Resource)
    requires DnsQuery.SubnetOk(s)
    ensures ResourceOk(r) && ResourceBytes(r) == DnsQuery.SubnetRecord(s)
    ensures r.owner == Owner([], None) && r.kind == OPT && r.class_ == 1232 && r.ttl == 0
    ensures ReadSubnet(r.data) ==
            Ok(ClientSubnet(if s.v6 then 2 else 1, s.prefix, 0, s.network[..(s.prefix + 7) / 8]))
  {
    hide U16, U16Bytes, U32, U32Bytes, ReadSubnet;
    var n := DnsQuery.AddressLength(s);
    var family := if s.v6 then 2 else 1;
    var data := U16Bytes(8) + U16Bytes(4 + n) + U16Bytes(family) + [s.prefix as byte, 0] + s.network[..n];
    r := Resource(Owner([], None), OPT, 1232, 0, data);
    assert OwnerBytes(r.owner) == [0];
    SubnetReads(n, family, s.prefix, s.network[..n]);
    assert DnsQuery.SubnetRecord(s) ==
      [0] + (U16Bytes(OPT) + (U16Bytes(1232) + (U32Bytes(0) + (U16Bytes(|data|) + data))));
    hide DnsQuery.SubnetRecord;
    Nested([0], U16Bytes(OPT), U16Bytes(1232), U32Bytes(0) + (U16Bytes(|data|) + data));
  }

  lemma Nested(a: Bytes, b: Bytes, c: Bytes, d: Bytes)
    ensures a + (b + c) + d == a + (b + (c + d))
  {
  }

  lemma SubnetReads(n: nat, family: nat, prefix: nat, address: Bytes)
    requires n < 0x1000 && family < 0x1_0000 && prefix < 256 && |address| == n
    ensures ReadSubnet(U16Bytes(8) + U16Bytes(4 + n) + U16Bytes(family) + [prefix as byte, 0] + address) ==
            Ok(ClientSubnet(family, prefix, 0, address))
  {
    hide U16, U16Bytes;
    var a, b, f := U16Bytes(8), U16Bytes(4 + n), U16Bytes(family);
    var data := a + b + f + [prefix as byte, 0] + address;
    assert Holds(data, 0, a) && Holds(data, 2, b) && Holds(data, 4, f);
    U16Held(data, 0, a);
    U16Held(data, 2, b);
    U16Held(data, 4, f);
    assert data[8..] == address;
  }

  /**
   A built query is the written-out message that has the identifier, asks for recursion and nothing
   else, and asks one question of class IN; a subnet adds one OPT record that reads as that subnet.
   */
  lemma BuiltQueryIsMessage(id: int, labels: seq<Bytes>, qtype: int, subnet: Option<DnsQuery.Subnet>)
    returns (x: Message)
    requires 0 <= id < 0x1_0000 && 0 <= qtype < 0x1_0000 && DnsQuery.LabelsOk(labels)
    requires subnet.Some? ==> DnsQuery.SubnetOk(subnet.value)
    ensures MessageOk(x) && MessageBytes(x) == DnsQuery.Query(id, labels, qtype, subnet)
    ensures U16(x.head, 0) == id && U16(x.head, 2) == 0x100
    ensures x.questions == [Question(Owner(labels, None), qtype, 1)] && x.answers == x.authority == []
    ensures subnet.None? ==> x.additional == []
    ensures subnet.Some? ==>
      && |x.additional| == 1 && x.additional[0].owner == Owner([], None)
      && x.additional[0].kind == OPT && x.additional[0].class_ == 1232 && x.additional[0].ttl == 0
      && ReadSubnet(x.additional[0].data) ==
         Ok(ClientSubnet(if subnet.value.v6 then 2 else 1, subnet.value.prefix, 0,
                         subnet.value.network[..(subnet.value.prefix + 7) / 8]))
  {
    hide ReadSubnet, ResourceBytes, DnsQuery.SubnetRecord, ResourceOk, U16, U16Bytes;
    var opt: seq<Resource> := [];
    if subnet.Some? {
      var r := SubnetIsRecord(subnet.value);
      opt := [r];
    }
    var q := Question(Owner(labels, None), qtype, 1);
    x := Message(U16Bytes(id) + [1, 0], [q], [], [], opt);
    assert x.Resources() == opt;
    QueryHead(id, x);
    QueryBody(labels, qtype, subnet, opt);
    hide Header, DnsQuery.Header, DnsQuery.EncodeLabels, QuestionsBytes, ResourcesBytes, DnsQuery.Tail;
    assert MessageBytes(x) == Header(x) + (QuestionsBytes([q]) + ResourcesBytes(opt));
  }

  lemma QueryHead(id: int, x: Message)
    requires 0 <= id < 0x1_0000 && MessageOk(x) && x.head == U16Bytes(id) + [1, 0]
    requires |x.questions| == 1 && x.answers == x.authority == [] && |x.additional| <= 1
    ensures Header(x) == DnsQuery.Header(id, |x.additional| == 1)
    ensures U16(x.head, 0) == id && U16(x.head, 2) == 0x100
  {
    hide QuestionsOk, ResourcesOk;
    assert x.head[..2] == U16Bytes(id);
  }

  lemma QueryBody(labels: seq<Bytes>, qtype: int, subnet: Option<DnsQuery.Subnet>, opt: seq<Resource>)
    requires 0 <= qtype < 0x1_0000 && DnsQuery.LabelsOk(labels) && ResourcesOk(opt)
    requires if subnet.Some?
             then DnsQuery.SubnetOk(subnet.value) && |opt| == 1 &&
               ResourceBytes(opt[0]) == DnsQuery.SubnetRecord(subnet.value)
             else opt == []
    ensures
      var q := Question(Owner(labels, None), qtype, 1);
      && QuestionsOk([q])
      && QuestionsBytes([q]) + ResourcesBytes(opt) ==
         DnsQuery.EncodeLabels(labels) + ([0] + DnsQuery.Tail(qtype, subnet))
  {
    hide ResourceBytes, DnsQuery.SubnetRecord, DnsQuery.EncodeLabels, U16, U16Bytes;
    var q := Question(Owner(labels, None), qtype, 1);
    var record := if subnet.Some? then DnsQuery.SubnetRecord(subnet.value) else [];
    OneQuestion(q);
    if subnet.Some? { OneResource(opt); }
    hide QuestionsBytes, ResourcesBytes, DnsQuery.LabelsOk;
    Regroup(DnsQuery.EncodeLabels(labels), [0], U16Bytes(qtype), U16Bytes(1), record);
  }

  lemma OneQuestion(q: Question)
    requires QuestionOk(q)
    ensures QuestionsOk([q]) && QuestionsBytes([q]) == QuestionBytes(q)
  {
    hide QuestionBytes, QuestionOk;
    assert [q][1..] == [] && QuestionBytes(q) + [] == QuestionBytes(q);
  }

  lemma OneResource(rs: seq<Resource>)
    requires ResourcesOk(rs) && |rs| == 1
    ensures ResourcesBytes(rs) == ResourceBytes(rs[0])
  {
    hide ResourceBytes, ResourceOk;
    assert rs[1..] == [] && ResourceBytes(rs[0]) + [] == ResourceBytes(rs[0]);
  }

  lemma Regroup(a: Bytes, b: Bytes, c: Bytes, d: Bytes, e: Bytes)
    ensures a + b + (c + d) + e == a + (b + (c + d + e))
  {
  }

  // ---------------------------------------------------------------- what the walk accepts

  lemma RootParsed(m: Bytes, p: nat) returns (o: Owner)
    requires p < |m| && m[p] == 0
    ensures OwnerOk(o) && o.labels == [] && Holds(m, p, OwnerBytes(o)) && |OwnerBytes(o)| == 1
  {
    o := Owner([], None);
    assert OwnerBytes(o) == [0] == m[p..p + 1];
  }

  lemma PointerParsed(m: Bytes, p: nat) returns (o: Owner)
    requires p + 1 < |m| && m[p] >= 0xc0
    ensures OwnerOk(o) && o.labels == [] && Holds(m, p, OwnerBytes(o)) && |OwnerBytes(o)| == 2
  {
    o := Owner([], Some(U16(m, p) - 0xc000));
    U16Read(m, p);
    assert OwnerBytes(o) == U16Bytes(U16(m, p));
  }

  lemma {:induction false} OwnerParsed(m: Bytes, p: nat, passed: nat) returns (o: Owner)
    requires SkipName(m, p, passed).Ok? && passed <= 127
    ensures OwnerOk(o) && passed + |o.labels| <= 127 && Holds(m, p, OwnerBytes(o))
    ensures SkipName(m, p, passed) == Ok(p + |OwnerBytes(o)|)
    decreases |m| - p
  {
    hide OwnerOk, OwnerBytes, Holds;
    var n := m[p] as int;
    if n == 0 {
      o := RootParsed(m, p);
    } else if n >= 0xc0 {
      o := PointerParsed(m, p);
    } else {
      var rest := OwnerParsed(m, p + 1 + n, passed + 1);
      DataHeld(m, p + 1, n);
      o := LabelBefore(m, p, m[p + 1..p + 1 + n], rest);
    }
  }

  lemma LabelBefore(m: Bytes, p: nat, first: Bytes, rest: Owner) returns (o: Owner)
    requires p < |m| && 0 < m[p] as int == |first| <= 63
    requires OwnerOk(rest) && Holds(m, p + 1, first) && Holds(m, p + 1 + |first|, OwnerBytes(rest))
    ensures OwnerOk(o) && |o.labels| == 1 + |rest.labels|
    ensures Holds(m, p, OwnerBytes(o)) && |OwnerBytes(o)| == 1 + |first| + |OwnerBytes(rest)|
  {
    hide Holds, OwnerEnd;
    o := rest.(labels := [first] + rest.labels);
    assert o.labels[1..] == rest.labels;
    SameEnd(o, rest);
    assert OwnerBytes(o) == [m[p]] + (first + OwnerBytes(rest));
    HoldsJoin(m, p + 1, first, OwnerBytes(rest));
    OctetHeld(m, p);
    HoldsJoin(m, p, [m[p]], first + OwnerBytes(rest));
  }

  lemma OctetHeld(m: Bytes, p: nat)
    requires p < |m|
    ensures Holds(m, p, [m[p]])
  {
  }

  lemma {:induction false} QuestionsParsed(m: Bytes, p: nat, n: nat) returns (qs: seq<Question>)
    requires SkipQuestions(m, p, n).Ok? && p <= |m|
    ensures |qs| == n && QuestionsOk(qs) && AllShort(qs, []) && Holds(m, p, QuestionsBytes(qs))
    ensures SkipQuestions(m, p, n) == Ok(p + |QuestionsBytes(qs)|)
    decreases n
  {
    hide SkipName, OwnerOk, OwnerBytes, U16, U16Bytes, Holds;
    qs := [];
    if n == 0 {
      DataHeld(m, p, 0);
    } else {
      var o := OwnerParsed(m, p, 0);
      var q := p + |OwnerBytes(o)|;
      var first := Question(o, U16(m, q), U16(m, q + 2));
      U16Read(m, q);
      U16Read(m, q + 2);
      HoldsJoin(m, q, U16Bytes(first.qtype), U16Bytes(first.class_));
      HoldsJoin(m, p, OwnerBytes(o), U16Bytes(first.qtype) + U16Bytes(first.class_));
      var tail := QuestionsParsed(m, q + 4, n - 1);
      qs := [first] + tail;
      assert qs[1..] == tail;
      HoldsJoin(m, p, QuestionBytes(first), QuestionsBytes(tail));
    }
  }

  lemma FixedParsed(m: Bytes, q: nat, n: nat)
    requires q + 10 + n <= |m| && n == U16(m, q + 8)
    ensures Holds(m, q, U16Bytes(U16(m, q)) + U16Bytes(U16(m, q + 2)))
    ensures Holds(m, q + 4, U32Bytes(U32(m, q + 4)) + (U16Bytes(n) + m[q + 10..q + 10 + n]))
  {
    hide U16, U16Bytes, U32, U32Bytes, Holds;
    U16Read(m, q);
    U16Read(m, q + 2);
    U32Read(m, q + 4);
    U16Read(m, q + 8);
    DataHeld(m, q + 10, n);
    HoldsJoin(m, q, U16Bytes(U16(m, q)), U16Bytes(U16(m, q + 2)));
    HoldsJoin(m, q + 8, U16Bytes(n), m[q + 10..q + 10 + n]);
    HoldsJoin(m, q + 4, U32Bytes(U32(m, q + 4)), U16Bytes(n) + m[q + 10..q + 10 + n]);
  }

  lemma ResourceParsed(m: Bytes, p: nat) returns (r: Resource)
    requires FirstRecord(m, p).Ok?
    ensures ResourceOk(r) && Short(r.owner) && Holds(m, p, ResourceBytes(r))
    ensures FirstRecord(m, p).value.end == p + |ResourceBytes(r)|
  {
    hide SkipName, OwnerOk, OwnerBytes, U16, U16Bytes, U32, U32Bytes, Holds;
    var o := OwnerParsed(m, p, 0);
    var q := p + |OwnerBytes(o)|;
    var n := U16(m, q + 8);
    r := Resource(o, U16(m, q), U16(m, q + 2), U32(m, q + 4), m[q + 10..q + 10 + n]);
    FixedParsed(m, q, n);
    HoldsJoin(m, p, OwnerBytes(o), U16Bytes(r.kind) + U16Bytes(r.class_));
    HoldsJoin(m, p, Front(r), U32Bytes(r.ttl) + (U16Bytes(n) + r.data));
  }

  lemma DataHeld(m: Bytes, p: nat, n: nat)
    requires p + n <= |m|
    ensures Holds(m, p, m[p..p + n])
  {
  }

  lemma {:induction false} ResourcesParsed(m: Bytes, p: nat, n: nat) returns (rs: seq<Resource>)
    requires Records(m, p, n).Ok? && p <= |m|
    ensures |rs| == n && ResourcesOk(rs) && AllShort([], rs) && Holds(m, p, ResourcesBytes(rs))
    decreases n
  {
    hide FirstRecord, ResourceBytes, Laid;
    rs := [];
    if n > 0 {
      var first := ResourceParsed(m, p);
      HoldsRoom(m, p, ResourceBytes(first));
      hide Holds;
      var tail := ResourcesParsed(m, p + |ResourceBytes(first)|, n - 1);
      rs := [first] + tail;
      assert rs[1..] == tail;
      HoldsJoin(m, p, ResourceBytes(first), ResourcesBytes(tail));
    }
  }

  lemma HeaderParsed(m: Bytes, x: Message)
    requires MessageOk(x) && |m| >= 12 && x.head == m[..4]
    requires |x.questions| == U16(m, 4) && |x.answers| == U16(m, 6)
    requires |x.authority| == U16(m, 8) && |x.additional| == U16(m, 10)
    ensures Holds(m, 0, Header(x))
  {
    hide U16, U16Bytes;
    U16Read(m, 4);
    U16Read(m, 6);
    U16Read(m, 8);
    U16Read(m, 10);
    var q, a, n, r := U16Bytes(|x.questions|), U16Bytes(|x.answers|), U16Bytes(|x.authority|), U16Bytes(|x.additional|);
    HoldsJoin(m, 8, n, r);
    HoldsJoin(m, 6, a, n + r);
    HoldsJoin(m, 4, q, a + (n + r));
    assert Holds(m, 0, x.head);
    HoldsJoin(m, 0, x.head, q + (a + (n + r)));
  }

  /** Whatever the walk accepts is a message written out and octets behind it, and it found that message's records. */
  lemma AcceptedIsMessage(m: Bytes) returns (x: Message, rest: Bytes)
    requires TtlOffsets(m).Ok?
    ensures MessageOk(x) && AllShort(x.questions, x.Resources()) && m == MessageBytes(x) + rest
    ensures TtlOffsets(m) == Ok(Fields(x.Resources(), |Before(x)|))
  {
    hide Holds, U16, Records, SkipQuestions, ResourcesBytes, QuestionsBytes, Header;
    hide QuestionOk, ResourceOk, Laid, Short, Fields;
    var qs := QuestionsParsed(m, 12, U16(m, 4));
    HoldsRoom(m, 12, QuestionsBytes(qs));
    var rs := ResourcesParsed(m, 12 + |QuestionsBytes(qs)|, RecordCount(m));
    var a, n := U16(m, 6), U16(m, 6) + U16(m, 8);
    x := Message(m[..4], qs, rs[..a], rs[a..n], rs[n..]);
    assert x.Resources() == rs;
    HeaderParsed(m, x);
    HoldsJoin(m, 0, Header(x), QuestionsBytes(qs));
    HoldsJoin(m, 0, Before(x), ResourcesBytes(rs));
    rest := RestBehind(m, MessageBytes(x));
    MessageWalk(x, rest);
  }

  lemma RestBehind(m: Bytes, b: Bytes) returns (rest: Bytes)
    requires Holds(m, 0, b)
    ensures m == b + rest
  {
    rest := m[|b|..];
  }

  // ---------------------------------------------------------------- TTL edits

  ghost function EditedResource(r: Resource, edit: Edit): (r': Resource)
    requires ResourceOk(r) && edit.Valid()
    ensures ResourceOk(r')
  {
    if r.kind == OPT then r else r.(ttl := edit.New(r.ttl))
  }

  ghost function EditedResources(rs: seq<Resource>, edit: Edit): (rs': seq<Resource>)
    requires ResourcesOk(rs) && edit.Valid()
    ensures |rs'| == |rs| && ResourcesOk(rs') && forall i :: 0 <= i < |rs| ==> rs'[i] == EditedResource(rs[i], edit)
  {
    if rs == [] then [] else [EditedResource(rs[0], edit)] + EditedResources(rs[1..], edit)
  }

  lemma {:induction false} FieldsBehind(rs: seq<Resource>, p: nat)
    requires ResourcesOk(rs)
    ensures |Fields(rs, p)| == |rs| && Ttls(Fields(rs, p))
    ensures forall i :: 0 <= i < |rs| ==>
      p <= Fields(rs, p)[i].offset && Fields(rs, p)[i].offset + 4 <= p + |ResourcesBytes(rs)|
    decreases |rs|
  {
    hide Front, OwnerBytes;
    if rs != [] {
      assert ResourceOk(rs[0]);
      ResourceLength(rs[0]);
      hide ResourceBytes;
      FieldsBehind(rs[1..], p + |ResourceBytes(rs[0])|);
    }
  }

  lemma ResourceLength(r: Resource)
    requires ResourceOk(r)
    ensures |ResourceBytes(r)| == |Front(r)| + 6 + |r.data|
  {
    hide Front;
  }

  /** Another TTL changes the four octets of the TTL field and no other. */
  lemma ResourceOctet(r: Resource, ttl: nat, j: nat)
    requires ResourceOk(r) && ttl <= U32_MAX && j < |ResourceBytes(r)|
    ensures ResourceOk(r.(ttl := ttl)) && |ResourceBytes(r.(ttl := ttl))| == |ResourceBytes(r)|
    ensures ResourceBytes(r.(ttl := ttl))[j] ==
            if |Front(r)| <= j < |Front(r)| + 4 then U32Bytes(ttl)[j - |Front(r)|] else ResourceBytes(r)[j]
  {
    hide OwnerBytes, U16Bytes, U32Bytes, U32, U16;
    var r' := r.(ttl := ttl);
    assert Front(r') == Front(r);
    var back := U16Bytes(|r.data|) + r.data;
    assert ResourceBytes(r) == Front(r) + (U32Bytes(r.ttl) + back);
    assert ResourceBytes(r') == Front(r) + (U32Bytes(ttl) + back);
  }

  lemma EditedOctet(r: Resource, edit: Edit, p: nat, k: nat)
    requires ResourceOk(r) && edit.Valid() && p <= k < p + |ResourceBytes(r)|
    ensures |ResourceBytes(EditedResource(r, edit))| == |ResourceBytes(r)|
    ensures
      var field := Record(p + |Front(r)|, r.kind, r.ttl);
      ResourceBytes(EditedResource(r, edit))[k - p] ==
      if InField(field, k) then U32Bytes(edit.New(r.ttl))[k - field.offset] else ResourceBytes(r)[k - p]
  {
    hide ResourceBytes, Front, U32Bytes, U32;
    ResourceOctet(r, edit.New(r.ttl), k - p);
  }

  /** Octet by octet, the edit turns records into the edited records. */
  lemma {:induction false} ResourcesEdited(rs: seq<Resource>, edit: Edit, p: nat, k: nat)
    requires ResourcesOk(rs) && edit.Valid() && p <= k < p + |ResourcesBytes(rs)| && Ttls(Fields(rs, p))
    ensures |ResourcesBytes(EditedResources(rs, edit))| == |ResourcesBytes(rs)|
    ensures ResourcesBytes(EditedResources(rs, edit))[k - p] ==
      NewOctet(ResourcesBytes(rs)[k - p], Fields(rs, p), edit, k)
    decreases |rs|
  {
    hide ResourceBytes, Front, U32Bytes, U32, EditedResource;
    var r, tail := rs[0], rs[1..];
    assert ResourceOk(r);
    var q := p + |ResourceBytes(r)|;
    FieldsBehind(rs, p);
    FieldsBehind(tail, q);
    EditedSize(r, edit);
    EditedLength(tail, edit);
    ResourceLength(r);
    assert EditedResources(rs, edit)[1..] == EditedResources(tail, edit);
    assert Fields(rs, p)[1..] == Fields(tail, q);
    if k < q {
      EditedOctet(r, edit, p, k);
      NewOctetOutside(ResourcesBytes(rs)[k - p], Fields(tail, q), edit, k);
    } else {
      ResourcesEdited(tail, edit, q, k);
    }
  }

  lemma EditedSize(r: Resource, edit: Edit)
    requires ResourceOk(r) && edit.Valid()
    ensures |ResourceBytes(EditedResource(r, edit))| == |ResourceBytes(r)|
  {
    hide ResourceBytes, Front;
    ResourceLength(r);
    EditedOctet(r, edit, 0, 0);
  }

  lemma {:induction false} EditedLength(rs: seq<Resource>, edit: Edit)
    requires ResourcesOk(rs) && edit.Valid()
    ensures |ResourcesBytes(EditedResources(rs, edit))| == |ResourcesBytes(rs)|
    decreases |rs|
  {
    hide ResourceBytes, EditedResource;
    if rs != [] {
      assert ResourceOk(rs[0]);
      EditedSize(rs[0], edit);
      EditedLength(rs[1..], edit);
      assert EditedResources(rs, edit)[1..] == EditedResources(rs[1..], edit);
    }
  }

  ghost function EditedMessage(x: Message, edit: Edit): Message
    requires MessageOk(x) && edit.Valid()
  {
    assert forall i :: 0 <= i < |x.answers| ==> x.answers[i] == x.Resources()[i];
    assert forall i :: 0 <= i < |x.authority| ==> x.authority[i] == x.Resources()[|x.answers| + i];
    assert forall i :: 0 <= i < |x.additional| ==> x.additional[i] == x.Resources()[|x.answers| + |x.authority| + i];
    x.(answers := EditedResources(x.answers, edit), authority := EditedResources(x.authority, edit),
       additional := EditedResources(x.additional, edit))
  }

  lemma EditedMessageOk(x: Message, edit: Edit)
    requires MessageOk(x) && edit.Valid()
    ensures MessageOk(EditedMessage(x, edit))
    ensures EditedMessage(x, edit).Resources() == EditedResources(x.Resources(), edit)
  {
    hide EditedResource, ResourceOk;
    var x', rs := EditedMessage(x, edit), x.Resources();
    forall i | 0 <= i < |rs| ensures x'.Resources()[i] == EditedResource(rs[i], edit) {
    }
    assert x'.Resources() == EditedResources(rs, edit);
  }

  /**
   Editing a message in place gives the octets of the same message with the TTLs of all records but
   OPT edited: nothing else about it changes.
   */
  lemma EditedIsReencoded(x: Message, edit: Edit, rest: Bytes)
    requires MessageOk(x) && edit.Valid() && AllShort(x.questions, x.Resources())
    ensures MessageOk(EditedMessage(x, edit))
    ensures Edited(MessageBytes(x) + rest, edit) == MessageBytes(EditedMessage(x, edit)) + rest
  {
    hide ResourcesBytes, Fields, TtlOffsets, EditedMessage, AllShort, Laid, NewOctet;
    EditedMessageOk(x, edit);
    MessageWalk(x, rest);
    var rs, x', p := x.Resources(), EditedMessage(x, edit), |Before(x)|;
    var m, m' := MessageBytes(x) + rest, MessageBytes(x') + rest;
    SameBefore(x, edit);
    FieldsBehind(rs, p);
    EditedLength(rs, edit);
    forall k | 0 <= k < |m| ensures m'[k] == NewOctet(m[k], Fields(rs, p), edit, k) {
      if p <= k < p + |ResourcesBytes(rs)| {
        ResourcesEdited(rs, edit, p, k);
      } else {
        NewOctetOutside(m[k], Fields(rs, p), edit, k);
      }
    }
    assert Edited(m, edit) == Written(m, Fields(rs, p), edit);
  }

  lemma SameBefore(x: Message, edit: Edit)
    requires MessageOk(x) && edit.Valid() && MessageOk(EditedMessage(x, edit))
    ensures Before(EditedMessage(x, edit)) == Before(x)
  {
  }
}
