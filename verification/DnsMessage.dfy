/**
 TTL bookkeeping on DNS wire messages (src/dns/message.rs): the record walk of
 sections 3.1 and 4.1.1 to 4.1.4 of RFC 1035, and the in-place TTL edits, which leave the
 TTL field of OPT records alone because section 6.1.3 of RFC 6891 gives it another meaning.
 */
module DnsMessage {
  import opened Basics
  import opened Octets

  const OPT := 41
  const DEFAULT_TTL := 30

  // ---------------------------------------------------------------- the record walk

  /** `skip_name`: the position behind the name at `p`; compression pointers are not followed. */
  function SkipName(m: seq<byte>, p: nat, labels: nat): (r: Result<nat>)
    ensures r.Ok? ==> p < r.value <= |m|
    decreases |m| - p
  {
    if p >= |m| then Err
    else
      var n := m[p] as int;
      if n == 0 then Ok(p + 1)
      else if n >= 0xc0 then (if p + 1 >= |m| then Err else Ok(p + 2))
      else if n > 63 then Err
      else if p + 1 + n > |m| then Err
      else if labels + 1 > 127 then Err
      else SkipName(m, p + 1 + n, labels + 1)
  }

  method SkipNameLoop(m: seq<byte>, start: nat) returns (r: Result<nat>)
    ensures r == SkipName(m, start, 0)
  {
    var p, count := start, 0;
    while true
      invariant SkipName(m, start, 0) == SkipName(m, p, count)
      invariant 0 <= p && 0 <= count
      decreases |m| - p
    {
      if p >= |m| {
        return Err;
      }
      var n := m[p] as int;
      p := p + 1;
      if n == 0 {
        return Ok(p);
      }
      if n >= 0xc0 {
        if p >= |m| {
          return Err;
        }
        p := p + 1;
        return Ok(p);
      }
      if n > 63 {
        return Err;
      }
      p := p + n;
      if p > |m| {
        return Err;
      }
      count := count + 1;
      if count > 127 {
        return Err;
      }
    }
  }

  /** One entry of `ttl_offsets`. */
  datatype Record = Record(offset: nat, kind: int, ttl: int)

  function SkipQuestions(m: seq<byte>, p: nat, n: nat): (r: Result<nat>)
    ensures r.Ok? ==> p <= r.value && (n > 0 ==> r.value <= |m|)
    decreases n
  {
    if n == 0 then Ok(p)
    else
      match SkipName(m, p, 0)
      case Err => Err
      case Ok(q) => if q + 4 <= |m| then SkipQuestions(m, q + 4, n - 1) else Err
  }

  /** The record at `p` and the position behind its data. */
  datatype Located = Located(record: Record, end: nat)

  function FirstRecord(m: seq<byte>, p: nat): (r: Result<Located>)
    ensures r.Ok? ==> p + 5 <= r.value.record.offset && r.value.record.offset + 6 <= r.value.end <= |m|
    ensures r.Ok? ==> 0 <= r.value.record.ttl <= U32_MAX
  {
    match SkipName(m, p, 0)
    case Err => Err
    case Ok(q) =>
      if q + 10 > |m| then Err
      else
        var end := q + 10 + U16(m, q + 8);
        if end > |m| then Err
        else Ok(Located(Record(q + 4, U16(m, q), U32(m, q + 4)), end))
  }

  function Records(m: seq<byte>, p: nat, n: nat): (r: Result<seq<Record>>)
    ensures r.Ok? ==> |r.value| == n && Laid(r.value, p, |m|)
    decreases n
  {
    if n == 0 then Ok([])
    else
      match FirstRecord(m, p)
      case Err => Err
      case Ok(first) =>
        match Records(m, first.end, n - 1)
        case Err => Err
        case Ok(tail) =>
          LaidFrom(tail, first.end, first.record.offset + 6, |m|);
          Ok([first.record] + tail)
  }

  /** The TTL fields lie in order behind `p`, each followed by at least two more octets. */
  ghost predicate Laid(records: seq<Record>, p: nat, end: nat) {
    records == [] ||
    (&& p < records[0].offset && records[0].offset + 6 <= end
     && 0 <= records[0].ttl <= U32_MAX
     && Laid(records[1..], records[0].offset + 6, end))
  }

  lemma LaidFrom(records: seq<Record>, p: nat, p': nat, end: nat)
    requires Laid(records, p, end) && p' <= p
    ensures Laid(records, p', end)
  {
  }

  function RecordCount(m: seq<byte>): nat
    requires |m| >= 12
  {
    U16(m, 6) + U16(m, 8) + U16(m, 10)
  }

  /** `ttl_offsets`. */
  function TtlOffsets(m: seq<byte>): (r: Result<seq<Record>>)
    ensures r.Ok? ==> Laid(r.value, 12, |m|)
  {
    if |m| < 12 then Err
    else
      match SkipQuestions(m, 12, U16(m, 4))
      case Err => Err
      case Ok(p) =>
        var r := Records(m, p, RecordCount(m));
        (if r.Ok? then LaidFrom(r.value, p, 12, |m|); r else r)
  }

  ghost function Prefixed(front: seq<Record>, tail: Result<seq<Record>>): Result<seq<Record>> {
    if tail.Ok? then Ok(front + tail.value) else Err
  }

  /** One record: its name, its fixed part, and its data skipped. */
  method ReadRecord(m: seq<byte>, position: nat) returns (r: Result<Located>)
    ensures r == FirstRecord(m, position)
  {
    hide SkipName, U16, U32;
    var name := SkipNameLoop(m, position);
    if name.Err? || name.value + 10 > |m| {
      return Err;
    }
    var q := name.value;
    var length := U16(m, q + 8);
    if q + 10 + length > |m| {
      return Err;
    }
    return Ok(Located(Record(q + 4, U16(m, q), U32(m, q + 4)), q + 10 + length));
  }

  lemma RecordsStep(m: seq<byte>, front: seq<Record>, p: nat, n: nat)
    requires n > 0
    ensures
      match FirstRecord(m, p)
      case Err => Prefixed(front, Records(m, p, n)) == Err
      case Ok(first) =>
        Prefixed(front, Records(m, p, n)) == Prefixed(front + [first.record], Records(m, first.end, n - 1))
  {
    hide FirstRecord, Laid;
    var first := FirstRecord(m, p);
    if first.Ok? {
      var rest := Records(m, first.value.end, n - 1);
      if rest.Ok? {
        assert front + ([first.value.record] + rest.value) == front + [first.value.record] + rest.value;
      }
    }
  }

  lemma RecordsDone(m: seq<byte>, front: seq<Record>, p: nat)
    ensures Prefixed(front, Records(m, p, 0)) == Ok(front)
  {
    assert front + [] == front;
  }

  lemma PrefixedEmpty(r: Result<seq<Record>>)
    ensures Prefixed([], r) == r
  {
    if r.Ok? { assert [] + r.value == r.value; }
  }

  method FindRecords(m: seq<byte>, start: nat, records: nat) returns (r: Result<seq<Record>>)
    ensures r == Records(m, start, records)
  {
    hide Records, Prefixed, FirstRecord;
    var position := start;
    var offsets: seq<Record> := [];
    PrefixedEmpty(Records(m, start, records));
    var i := 0;
    while i < records
      invariant 0 <= i <= records
      invariant Records(m, start, records) == Prefixed(offsets, Records(m, position, records - i))
    {
      RecordsStep(m, offsets, position, records - i);
      var record := ReadRecord(m, position);
      if record.Err? {
        return Err;
      }
      offsets := offsets + [record.value.record];
      position := record.value.end;
      i := i + 1;
    }
    RecordsDone(m, offsets, position);
    return Ok(offsets);
  }

  method FindTtlOffsets(m: seq<byte>) returns (r: Result<seq<Record>>)
    ensures r == TtlOffsets(m)
  {
    if |m| < 12 {
      return Err;
    }
    var questions, records := U16(m, 4), RecordCount(m);
    var position := 12;
    var i := 0;
    while i < questions
      invariant 0 <= i <= questions && 12 <= position
      invariant SkipQuestions(m, 12, questions) == SkipQuestions(m, position, questions - i)
    {
      var name := SkipNameLoop(m, position);
      if name.Err? || name.value + 4 > |m| {
        return Err;
      }
      position := name.value + 4;
      i := i + 1;
    }
    r := FindRecords(m, position, records);
  }

  // ---------------------------------------------------------------- TTL edits

  datatype Edit = Age(elapsed: nat) | Replace(value: nat)
  {
    ghost predicate Valid() { Replace? ==> value <= U32_MAX }

    /** The new TTL: aged with saturation at zero, or replaced. */
    function New(ttl: int): (r: int)
      requires Valid() && 0 <= ttl <= U32_MAX
      ensures 0 <= r <= U32_MAX
    {
      match this
      case Age(elapsed) => Max(ttl - elapsed, 0)
      case Replace(value) => value
    }
  }

  function Put(m: seq<byte>, p: nat, b: seq<byte>): (r: seq<byte>)
    requires p + |b| <= |m|
    ensures |r| == |m|
    ensures forall k :: 0 <= k < |m| ==> r[k] == if p <= k < p + |b| then b[k - p] else m[k]
  {
    m[..p] + b + m[p + |b|..]
  }

  predicate InField(r: Record, k: int) {
    r.kind != OPT && r.offset <= k < r.offset + 4
  }

  /** The octet at position `k`, which was `b`, once the edit is written to all records but OPT. */
  function NewOctet(b: byte, records: seq<Record>, edit: Edit, k: nat): byte
    requires edit.Valid() && Ttls(records)
  {
    if records == [] then b
    else if InField(records[0], k) then U32Bytes(edit.New(records[0].ttl))[k - records[0].offset]
    else NewOctet(b, records[1..], edit, k)
  }

  predicate Ttls(records: seq<Record>) {
    forall i :: 0 <= i < |records| ==> 0 <= records[i].ttl <= U32_MAX
  }

  lemma LaidTtls(records: seq<Record>, p: nat, end: nat)
    requires Laid(records, p, end)
    ensures Ttls(records)
  {
    if records != [] {
      LaidTtls(records[1..], records[0].offset + 6, end);
    }
  }

  function Written(m: seq<byte>, records: seq<Record>, edit: Edit): (r: seq<byte>)
    requires edit.Valid() && Ttls(records)
    ensures |r| == |m|
  {
    seq(|m|, k requires 0 <= k < |m| => NewOctet(m[k], records, edit, k))
  }

  /** `age_response_ttls` and `rewrite_response_ttls`; a message that does not parse is kept. */
  function Edited(m: seq<byte>, edit: Edit): (r: seq<byte>)
    requires edit.Valid()
    ensures |r| == |m|
  {
    match TtlOffsets(m)
    case Err => m
    case Ok(records) => LaidTtls(records, 12, |m|); Written(m, records, edit)
  }

  /** Writing one more field, behind all others, adds that field and keeps the rest. */
  lemma {:induction false} NewOctetAppend(b: byte, records: seq<Record>, r: Record, edit: Edit, k: nat, p: nat,
    end: nat)
    requires edit.Valid() && Laid(records + [r], p, end) && Ttls(records + [r]) && Ttls(records)
    requires 0 <= r.ttl <= U32_MAX
    ensures NewOctet(b, records + [r], edit, k)
         == if InField(r, k) then U32Bytes(edit.New(r.ttl))[k - r.offset] else NewOctet(b, records, edit, k)
    decreases |records|
  {
    if records == [] {
      assert records + [r] == [r];
    } else {
      assert (records + [r])[1..] == records[1..] + [r];
      assert forall i :: 0 <= i < |records| ==> (records + [r])[i] == records[i];
      NewOctetAppend(b, records[1..], r, edit, k, records[0].offset + 6, end);
      LaidBehind(records[1..] + [r], records[0].offset + 6, end, |records| - 1);
    }
  }

  lemma {:induction false} LaidBehind(records: seq<Record>, p: nat, end: nat, i: nat)
    requires Laid(records, p, end) && i < |records|
    ensures p < records[i].offset && records[i].offset + 6 <= end
    decreases i
  {
    if i > 0 {
      LaidBehind(records[1..], records[0].offset + 6, end, i - 1);
    }
  }

  lemma {:induction false} LaidPrefix(records: seq<Record>, p: nat, end: nat, i: nat)
    requires Laid(records, p, end) && i <= |records|
    ensures Laid(records[..i], p, end)
    decreases i
  {
    if i > 0 {
      assert records[..i][1..] == records[1..][..i - 1];
      LaidPrefix(records[1..], records[0].offset + 6, end, i - 1);
    }
  }

  /** `copy_from_slice` into part of the buffer. */
  method CopyInto(message: array<byte>, p: nat, bytes: seq<byte>)
    requires p + |bytes| <= message.Length
    modifies message
    ensures message[..] == Put(old(message[..]), p, bytes)
  {
    for i := 0 to |bytes|
      invariant forall k :: 0 <= k < message.Length ==>
                  message[k] == if p <= k < p + i then bytes[k - p] else old(message[k])
    {
      message[p + i] := bytes[i];
    }
  }

  /** One turn of the edit loop, octet by octet. */
  lemma WrittenAppend(m: seq<byte>, front: seq<Record>, r: Record, edit: Edit)
    requires edit.Valid() && Laid(front + [r], 12, |m|)
    ensures Ttls(front) && Ttls(front + [r]) && 0 <= r.ttl <= U32_MAX
    ensures forall k :: 0 <= k < |m| ==>
              Written(m, front + [r], edit)[k]
              == if InField(r, k) then U32Bytes(edit.New(r.ttl))[k - r.offset] else Written(m, front, edit)[k]
  {
    hide NewOctet, U32Bytes;
    var all := front + [r];
    LaidTtls(all, 12, |m|);
    assert all[|front|] == r && forall i :: 0 <= i < |front| ==> all[i] == front[i];
    forall k | 0 <= k < |m|
      ensures Written(m, front + [r], edit)[k]
           == if InField(r, k) then U32Bytes(edit.New(r.ttl))[k - r.offset] else Written(m, front, edit)[k]
    {
      NewOctetAppend(m[k], front, r, edit, k, 12, |m|);
    }
  }

  method EditTtls(message: array<byte>, edit: Edit)
    requires edit.Valid()
    modifies message
    ensures message[..] == Edited(old(message[..]), edit)
  {
    hide NewOctet, U32Bytes, Put, Laid;
    ghost var m := message[..];
    var parsed := FindTtlOffsets(message[..]);
    if parsed.Err? {
      return;
    }
    var records := parsed.value;
    LaidTtls(records, 12, |m|);
    WrittenNothing(m, edit);
    for i := 0 to |records|
      invariant message[..] == Written(m, records[..i], edit)
    {
      WriteRecord(message, m, records, i, edit);
    }
    assert records[..|records|] == records;
  }

  lemma WrittenNothing(m: seq<byte>, edit: Edit)
    requires edit.Valid()
    ensures Written(m, [], edit) == m
  {
  }

  /** The loop body: one record's field, unless it is OPT. */
  method WriteRecord(message: array<byte>, ghost m: seq<byte>, records: seq<Record>, i: nat, edit: Edit)
    requires edit.Valid() && i < |records| && Laid(records, 12, message.Length) && |m| == message.Length
    requires Ttls(records)
    requires message[..] == Written(m, records[..i], edit)
    modifies message
    ensures message[..] == Written(m, records[..i + 1], edit)
  {
    hide NewOctet, U32Bytes, Laid;
    var r := records[i];
    LaidBehind(records, 12, |m|, i);
    LaidPrefix(records, 12, |m|, i + 1);
    assert records[..i + 1] == records[..i] + [r];
    WrittenAppend(m, records[..i], r, edit);
    if r.kind != OPT {
      CopyInto(message, r.offset, U32Bytes(edit.New(r.ttl)));
    }
  }

  /** Only octets in the TTL field of a record that is not OPT ever change. */
  lemma EditedOnlyTtls(m: seq<byte>, edit: Edit, k: nat)
    requires edit.Valid() && k < |m| && Edited(m, edit)[k] != m[k]
    ensures TtlOffsets(m).Ok? && exists i :: 0 <= i < |TtlOffsets(m).value| && InField(TtlOffsets(m).value[i], k)
  {
    var records := TtlOffsets(m).value;
    LaidTtls(records, 12, |m|);
    if forall i :: 0 <= i < |records| ==> !InField(records[i], k) {
      NewOctetOutside(m[k], records, edit, k);
    }
  }

  lemma {:induction false} NewOctetOutside(b: byte, records: seq<Record>, edit: Edit, k: nat)
    requires edit.Valid() && Ttls(records) && forall i :: 0 <= i < |records| ==> !InField(records[i], k)
    ensures NewOctet(b, records, edit, k) == b
    decreases |records|
  {
    if records != [] {
      NewOctetOutside(b, records[1..], edit, k);
    }
  }

  // ---------------------------------------------------------------- the edit does not disturb the parse

  lemma {:induction false} SkipNameFrame(m: seq<byte>, m': seq<byte>, p: nat, labels: nat)
    requires |m| == |m'| && SkipName(m, p, labels).Ok?
    requires forall k :: p <= k < SkipName(m, p, labels).value ==> m[k] == m'[k]
    ensures SkipName(m', p, labels) == SkipName(m, p, labels)
    decreases |m| - p
  {
    var n := m[p] as int;
    if 0 < n <= 63 {
      SkipNameFrame(m, m', p + 1 + n, labels + 1);
    }
  }

  lemma {:induction false} SkipQuestionsFrame(m: seq<byte>, m': seq<byte>, p: nat, n: nat)
    requires |m| == |m'| && SkipQuestions(m, p, n).Ok?
    requires forall k :: p <= k < SkipQuestions(m, p, n).value && k < |m| ==> m[k] == m'[k]
    ensures SkipQuestions(m', p, n) == SkipQuestions(m, p, n)
    decreases n
  {
    if n > 0 {
      SkipNameFrame(m, m', p, 0);
      SkipQuestionsFrame(m, m', SkipName(m, p, 0).value + 4, n - 1);
    }
  }

  /** The records with their TTLs edited; places and types stay. */
  function NewRecords(records: seq<Record>, edit: Edit): (r: seq<Record>)
    requires edit.Valid() && Ttls(records)
    ensures |r| == |records| && Ttls(r)
    ensures forall i :: 0 <= i < |r| ==>
              r[i] == EditedRecord(records[i], edit)
  {
    if records == [] then [] else [EditedRecord(records[0], edit)] + NewRecords(records[1..], edit)
  }

  /** No field of records laid behind `p` reaches `p` or below. */
  lemma {:induction false} NewOctetBelow(b: byte, records: seq<Record>, edit: Edit, k: nat, p: nat, end: nat)
    requires edit.Valid() && Laid(records, p, end) && Ttls(records) && k <= p
    ensures NewOctet(b, records, edit, k) == b
    decreases |records|
  {
    if records != [] {
      NewOctetBelow(b, records[1..], edit, k, records[0].offset + 6, end);
    }
  }

  lemma U32Of(m: seq<byte>, p: nat, v: int)
    requires p + 4 <= |m| && 0 <= v <= U32_MAX
    requires forall k :: p <= k < p + 4 ==> m[k] == U32Bytes(v)[k - p]
    ensures U32(m, p) == v
  {
    var b := U32Bytes(v);
    assert m[p] == b[0] && m[p + 1] == b[1] && m[p + 2] == b[2] && m[p + 3] == b[3];
  }

  function EditedRecord(r: Record, edit: Edit): Record
    requires edit.Valid() && 0 <= r.ttl <= U32_MAX
  {
    r.(ttl := if r.kind == OPT then r.ttl else edit.New(r.ttl))
  }

  /** Type and length of a record header stay as they are; the TTL is the edited one. */
  lemma HeaderEdited(m: seq<byte>, m': seq<byte>, q: nat, edit: Edit)
    requires edit.Valid() && |m| == |m'| && q + 10 <= |m|
    requires
      var r := Record(q + 4, U16(m, q), U32(m, q + 4));
      forall k :: q <= k < q + 10 ==>
        m'[k] == if InField(r, k) then U32Bytes(edit.New(r.ttl))[k - q - 4] else m[k]
    ensures U16(m', q + 8) == U16(m, q + 8)
    ensures Record(q + 4, U16(m', q), U32(m', q + 4)) == EditedRecord(Record(q + 4, U16(m, q), U32(m, q + 4)), edit)
  {
    var r := Record(q + 4, U16(m, q), U32(m, q + 4));
    if r.kind != OPT {
      U32Of(m', q + 4, edit.New(r.ttl));
    }
  }

  lemma FirstRecordEdited(m: seq<byte>, m': seq<byte>, p: nat, edit: Edit)
    requires edit.Valid() && |m| == |m'| && FirstRecord(m, p).Ok?
    requires
      var r := FirstRecord(m, p).value;
      forall k :: p <= k < r.end ==>
        m'[k] == if InField(r.record, k) then U32Bytes(edit.New(r.record.ttl))[k - r.record.offset] else m[k]
    ensures
      var r := FirstRecord(m, p).value;
      FirstRecord(m', p) == Ok(Located(EditedRecord(r.record, edit), r.end))
  {
    var q := SkipName(m, p, 0).value;
    SkipNameFrame(m, m', p, 0);
    HeaderEdited(m, m', q, edit);
  }

  /** The walk over an edited message finds the same records, with the edited TTLs. */
  lemma {:induction false} RecordsEdited(m: seq<byte>, m': seq<byte>, p: nat, n: nat, edit: Edit)
    requires edit.Valid() && |m| == |m'| && Records(m, p, n).Ok? && Ttls(Records(m, p, n).value)
    requires forall k :: p <= k < |m| ==> m'[k] == NewOctet(m[k], Records(m, p, n).value, edit, k)
    ensures Records(m', p, n) == Ok(NewRecords(Records(m, p, n).value, edit))
    decreases n
  {
    hide FirstRecord, U32Bytes;
    if n > 0 {
      var first := FirstRecord(m, p).value;
      var records, tail := Records(m, p, n).value, Records(m, first.end, n - 1).value;
      assert records[1..] == tail && records[0] == first.record;
      forall k | p <= k < first.end
        ensures m'[k] == if InField(first.record, k)
          then U32Bytes(edit.New(first.record.ttl))[k - first.record.offset] else m[k]
      {
        NewOctetBelow(m[k], tail, edit, k, first.end, |m|);
      }
      FirstRecordEdited(m, m', p, edit);
      RecordsEdited(m, m', first.end, n - 1, edit);
    }
  }

  /** Re-parsing an edited message yields the same offsets and types, with the edited TTLs. */
  lemma EditedReparses(m: seq<byte>, edit: Edit)
    requires edit.Valid() && TtlOffsets(m).Ok?
    ensures Ttls(TtlOffsets(m).value)
    ensures TtlOffsets(Edited(m, edit)) == Ok(NewRecords(TtlOffsets(m).value, edit))
  {
    var records := TtlOffsets(m).value;
    LaidTtls(records, 12, |m|);
    var p := SkipQuestions(m, 12, U16(m, 4)).value;
    var m' := Written(m, records, edit);
    forall k | 0 <= k <= p && k < |m| ensures m'[k] == m[k] {
      NewOctetBelow(m[k], records, edit, k, p, |m|);
    }
    assert U16(m', 4) == U16(m, 4) && RecordCount(m') == RecordCount(m);
    SkipQuestionsFrame(m, m', 12, U16(m, 4));
    RecordsEdited(m, m', p, RecordCount(m), edit);
  }

  /** Two edits in a row, as one. */
  function Then(first: Edit, second: Edit): Edit {
    match (first, second)
    case (_, Replace(_)) => second
    case (Replace(value), Age(elapsed)) => Replace(Max(value - elapsed, 0))
    case (Age(a), Age(b)) => Age(a + b)
  }

  lemma {:induction false} NewOctetTwice(b: byte, records: seq<Record>, first: Edit, second: Edit, k: nat)
    requires first.Valid() && second.Valid() && Then(first, second).Valid() && Ttls(records)
    ensures NewOctet(NewOctet(b, records, first, k), NewRecords(records, first), second, k)
         == NewOctet(b, records, Then(first, second), k)
    decreases |records|
  {
    if records != [] {
      var r := records[0];
      assert NewRecords(records, first)[1..] == NewRecords(records[1..], first);
      if InField(r, k) {
        assert second.New(first.New(r.ttl)) == Then(first, second).New(r.ttl);
      } else {
        NewOctetTwice(b, records[1..], first, second, k);
      }
    }
  }

  /** Edits compose: aging by a and then b is aging by a + b, saturation included. */
  lemma EditsCompose(m: seq<byte>, first: Edit, second: Edit)
    requires first.Valid() && second.Valid()
    ensures Then(first, second).Valid()
    ensures Edited(Edited(m, first), second) == Edited(m, Then(first, second))
  {
    if TtlOffsets(m).Ok? {
      EditedReparses(m, first);
      forall k | 0 <= k < |m| ensures Edited(Edited(m, first), second)[k] == Edited(m, Then(first, second))[k] {
        NewOctetTwice(m[k], TtlOffsets(m).value, first, second, k);
      }
    }
  }

  lemma AgingComposes(m: seq<byte>, a: nat, b: nat)
    ensures Edited(Edited(m, Age(a)), Age(b)) == Edited(m, Age(a + b))
  {
    EditsCompose(m, Age(a), Age(b));
  }

  // ---------------------------------------------------------------- minimum TTL

  /** The least TTL of the records that are not OPT. */
  function MinTtl(records: seq<Record>): (r: Option<int>)
    ensures r.None? <==> forall i :: 0 <= i < |records| ==> records[i].kind == OPT
    ensures r.Some? ==> exists i :: 0 <= i < |records| && records[i].kind != OPT && records[i].ttl == r.value
    ensures r.Some? ==> forall i :: 0 <= i < |records| && records[i].kind != OPT ==> r.value <= records[i].ttl
  {
    if records == [] then None
    else
      var tail := MinTtl(records[1..]);
      if records[0].kind == OPT then tail
      else if tail.Some? then Some(Min(records[0].ttl, tail.value))
      else Some(records[0].ttl)
  }

  /** `response_ttl`. */
  function ResponseTtl(m: seq<byte>): int {
    match TtlOffsets(m)
    case Err => DEFAULT_TTL
    case Ok(records) =>
      match MinTtl(records)
      case None => DEFAULT_TTL
      case Some(ttl) => ttl
  }

  /** The message parses and has a record whose TTL counts. */
  predicate HasTtl(m: seq<byte>) {
    TtlOffsets(m).Ok? && MinTtl(TtlOffsets(m).value).Some?
  }

  lemma MinTtlEdited(records: seq<Record>, edit: Edit)
    requires edit.Valid() && Ttls(records)
    ensures MinTtl(NewRecords(records, edit)).Some? == MinTtl(records).Some?
    ensures
      match MinTtl(records)
      case None => true
      case Some(ttl) => 0 <= ttl <= U32_MAX && MinTtl(NewRecords(records, edit)) == Some(edit.New(ttl))
  {
    hide MinTtl, NewRecords;
    var edited := NewRecords(records, edit);
    assert forall i :: 0 <= i < |records| ==> edited[i].kind == records[i].kind;
    if MinTtl(records).Some? {
      var ttl := MinTtl(records).value;
      var i :| 0 <= i < |records| && records[i].kind != OPT && records[i].ttl == ttl;
      assert edited[i].ttl == edit.New(ttl) && edited[i].kind != OPT;
      assert MinTtl(edited).Some?;
      var j :| 0 <= j < |edited| && edited[j].kind != OPT && edited[j].ttl == MinTtl(edited).value;
      assert records[j].kind != OPT && edited[j].ttl == edit.New(records[j].ttl);
      assert ttl <= records[j].ttl;
    } else {
      assert forall i :: 0 <= i < |edited| ==> edited[i].kind == OPT;
    }
  }

  /** Aging lowers the minimum TTL by exactly the elapsed time, down to zero; rewriting sets it. */
  lemma ResponseTtlEdited(m: seq<byte>, edit: Edit)
    requires edit.Valid()
    ensures HasTtl(Edited(m, edit)) == HasTtl(m)
    ensures ResponseTtl(Edited(m, edit)) ==
            if !HasTtl(m) then DEFAULT_TTL
            else match edit
                 case Age(elapsed) => Max(ResponseTtl(m) - elapsed, 0)
                 case Replace(value) => value
  {
    if TtlOffsets(m).Ok? {
      EditedReparses(m, edit);
      MinTtlEdited(TtlOffsets(m).value, edit);
    }
  }
}
