/**
 Packet-up uploads: the client cuts its stream into numbered chunks (src/client.rs) and the
 server reorders what arrives, holding a bounded number of early packets (src/server.rs).

 Each packet is handled as one step, and writes to the backend succeed.
 */
module PacketUp {
  import opened Basics

  datatype Packet = Packet(sequence: nat, payload: seq<byte>)

  function Concat(chunks: seq<seq<byte>>): seq<byte> {
    if chunks == [] then [] else Concat(chunks[..|chunks| - 1]) + chunks[|chunks| - 1]
  }

  // ---------------------------------------------------------------- the client

  function Payloads(packets: seq<Packet>): (r: seq<seq<byte>>)
    ensures |r| == |packets| && forall i :: 0 <= i < |r| ==> r[i] == packets[i].payload
  {
    seq(|packets|, i requires 0 <= i < |packets| => packets[i].payload)
  }

  /** The packets number the chunks of `stream` from zero, none empty, none above `maxSize`. */
  ghost predicate IsUpload(packets: seq<Packet>, stream: seq<byte>, maxSize: nat) {
    && (forall i :: 0 <= i < |packets| ==> packets[i].sequence == i && 0 < |packets[i].payload| <= maxSize)
    && Concat(Payloads(packets)) == stream
  }

  /** `packet_upload`: each read returns between one octet and a full buffer, until the end. */
  method PacketUpload(stream: seq<byte>, maxSize: nat) returns (packets: seq<Packet>)
    requires maxSize > 0
    ensures IsUpload(packets, stream, maxSize)
  {
    packets := [];
    var consumed, sequence := 0, 0;
    while consumed < |stream|
      invariant 0 <= consumed <= |stream| && sequence == |packets|
      invariant IsUpload(packets, stream[..consumed], maxSize)
    {
      var n :| 1 <= n <= maxSize && consumed + n <= |stream|;
      var chunk := stream[consumed..consumed + n];
      var more := packets + [Packet(sequence, chunk)];
      assert Payloads(more)[..|packets|] == Payloads(packets);
      assert stream[..consumed + n] == stream[..consumed] + chunk;
      packets := more;
      consumed, sequence := consumed + n, sequence + 1;
    }
    assert stream[..consumed] == stream;
  }

  // ---------------------------------------------------------------- the server's reorder task

  datatype State = State(pending: map<nat, seq<byte>>, next: nat, written: seq<byte>, overflowed: bool)

  const Fresh := State(map[], 0, [], false)

  /** Write everything that is now in order. */
  function Drain(s: State): State
    decreases |s.pending|
  {
    if s.next in s.pending then
      var pending := s.pending - {s.next};
      assert s.pending.Keys == pending.Keys + {s.next};
      Drain(State(pending, s.next + 1, s.written + s.pending[s.next], s.overflowed))
    else s
  }

  /** The packet finds the buffer full and is not one it already holds. */
  predicate Overflows(s: State, p: Packet, limit: nat) {
    p.sequence >= s.next && |s.pending| >= limit && p.sequence !in s.pending
  }

  function Receive(s: State, p: Packet, limit: nat): State {
    if s.overflowed || p.sequence < s.next then s
    else if Overflows(s, p, limit) then s.(overflowed := true)
    else Drain(s.(pending := s.pending[p.sequence := p.payload]))
  }

  function Run(packets: seq<Packet>, limit: nat): State
    decreases |packets|
  {
    if packets == [] then Fresh else Receive(Run(packets[..|packets| - 1], limit), packets[|packets| - 1], limit)
  }

  /** The reorder loop of `download`, with its `pending` map and `next` counter. */
  method ReorderTask(packets: seq<Packet>, limit: nat) returns (written: seq<byte>, overflowed: bool)
    ensures written == Run(packets, limit).written && overflowed == Run(packets, limit).overflowed
  {
    var pending: map<nat, seq<byte>>, next: nat := map[], 0;
    written := [];
    for i := 0 to |packets|
      invariant State(pending, next, written, false) == Run(packets[..i], limit)
    {
      assert packets[..i + 1][..i] == packets[..i];
      var packet := packets[i];
      if packet.sequence < next {
        continue;
      }
      if |pending| >= limit && packet.sequence !in pending {
        OverflowLasts(packets, limit, i + 1);
        return written, true;
      }
      pending := pending[packet.sequence := packet.payload];
      while next in pending
        invariant Drain(State(pending, next, written, false)) == Run(packets[..i + 1], limit)
        decreases |pending|
      {
        ghost var before := pending;
        written := written + pending[next];
        pending := pending - {next};
        assert before.Keys == pending.Keys + {next};
        next := next + 1;
      }
    }
    assert packets[..|packets|] == packets;
    return written, false;
  }

  lemma {:induction false} OverflowLasts(packets: seq<Packet>, limit: nat, i: nat)
    requires i <= |packets| && Run(packets[..i], limit).overflowed
    ensures Run(packets, limit).overflowed && Run(packets, limit).written == Run(packets[..i], limit).written
    decreases |packets|
  {
    if i < |packets| {
      var front := packets[..|packets| - 1];
      assert front[..i] == packets[..i];
      OverflowLasts(front, limit, i);
    } else {
      assert packets[..i] == packets;
    }
  }

  // ---------------------------------------------------------------- safety

  /** Every arrival is one of the client's packets, in any order and any number of times. */
  ghost predicate Arrivals(packets: seq<Packet>, chunks: seq<seq<byte>>) {
    forall i :: 0 <= i < |packets| ==>
      packets[i].sequence < |chunks| && packets[i].payload == chunks[packets[i].sequence]
  }

  /** Everything before `next` is written, in order; later packets are held as they were sent. */
  ghost predicate Correct(s: State, chunks: seq<seq<byte>>) {
    && s.next <= |chunks|
    && s.written == Concat(chunks[..s.next])
    && (forall k :: k in s.pending ==> s.next <= k < |chunks| && s.pending[k] == chunks[k])
  }

  lemma {:induction false} DrainCorrect(s: State, chunks: seq<seq<byte>>)
    requires Correct(s, chunks)
    ensures Correct(Drain(s), chunks) && Drain(s).next !in Drain(s).pending
    ensures Drain(s).overflowed == s.overflowed && s.next <= Drain(s).next
    ensures |Drain(s).pending| <= |s.pending|
    ensures forall k :: k in s.pending ==> k < Drain(s).next || k in Drain(s).pending
    ensures forall k :: k in Drain(s).pending ==> k in s.pending
    decreases |s.pending|
  {
    if s.next in s.pending {
      var pending := s.pending - {s.next};
      assert s.pending.Keys == pending.Keys + {s.next};
      assert chunks[..s.next + 1][..s.next] == chunks[..s.next];
      DrainCorrect(State(pending, s.next + 1, s.written + s.pending[s.next], s.overflowed), chunks);
    }
  }

  /** The sequence numbers that have arrived. */
  ghost function Seen(packets: seq<Packet>): (r: set<nat>)
    ensures forall i :: 0 <= i < |packets| ==> packets[i].sequence in r
    decreases |packets|
  {
    if packets == [] then {} else Seen(packets[..|packets| - 1]) + {packets[|packets| - 1].sequence}
  }

  /** The invariant between packets: what has arrived is written or held, within the limit. */
  ghost predicate Inv(s: State, chunks: seq<seq<byte>>, limit: nat, seen: set<nat>) {
    && Correct(s, chunks)
    && s.next !in s.pending
    && |s.pending| <= limit
    && (!s.overflowed ==> forall k :: k in seen ==> k < s.next || k in s.pending)
    && s.pending.Keys <= seen
    && (s.overflowed ==> |s.pending| == limit)
  }

  /** What every prefix of every arrival sequence keeps. */
  lemma {:induction false} RunInv(packets: seq<Packet>, chunks: seq<seq<byte>>, limit: nat)
    requires Arrivals(packets, chunks)
    ensures Inv(Run(packets, limit), chunks, limit, Seen(packets))
    decreases |packets|
  {
    if packets == [] {
      assert chunks[..0] == [];
    } else {
      var front, p := packets[..|packets| - 1], packets[|packets| - 1];
      RunInv(front, chunks, limit);
      ReceiveInv(Run(front, limit), chunks, limit, Seen(front), p);
    }
  }

  lemma ReceiveInv(s: State, chunks: seq<seq<byte>>, limit: nat, seen: set<nat>, p: Packet)
    requires Inv(s, chunks, limit, seen) && p.sequence < |chunks| && p.payload == chunks[p.sequence]
    ensures Inv(Receive(s, p, limit), chunks, limit, seen + {p.sequence})
  {
    if !s.overflowed && p.sequence >= s.next && !Overflows(s, p, limit) {
      var held := s.(pending := s.pending[p.sequence := p.payload]);
      if p.sequence in s.pending {
        assert held.pending.Keys == s.pending.Keys;
      } else {
        assert held.pending.Keys == s.pending.Keys + {p.sequence};
      }
      DrainCorrect(held, chunks);
    }
  }

  lemma {:induction false} ConcatPrefix(chunks: seq<seq<byte>>, n: nat)
    requires n <= |chunks|
    ensures Concat(chunks[..n]) <= Concat(chunks)
    decreases |chunks|
  {
    if n < |chunks| {
      assert chunks[..|chunks| - 1][..n] == chunks[..n];
      ConcatPrefix(chunks[..|chunks| - 1], n);
    } else {
      assert chunks[..n] == chunks;
    }
  }

  /**
   Whatever order the client's packets arrive in, and however often, the octets written are a
   prefix of the client's stream, the held packets are later than the next one and within the
   limit, and the session is given up only while holding the full number of later packets.
   */
  lemma WrittenIsPrefix(upload: seq<Packet>, stream: seq<byte>, maxSize: nat, arrivals: seq<Packet>, limit: nat)
    requires IsUpload(upload, stream, maxSize) && forall i :: 0 <= i < |arrivals| ==> arrivals[i] in upload
    ensures
      var s := Run(arrivals, limit);
      && s.written <= stream
      && (forall k :: k in s.pending ==> k > s.next) && |s.pending| <= limit
      && (s.overflowed ==> |s.pending| == limit)
  {
    var chunks := Payloads(upload);
    assert Arrivals(arrivals, chunks);
    RunInv(arrivals, chunks, limit);
    ConcatPrefix(chunks, Run(arrivals, limit).next);
  }

  /** Full delivery without overflow writes the whole stream. */
  lemma FullDelivery(upload: seq<Packet>, stream: seq<byte>, maxSize: nat, arrivals: seq<Packet>, limit: nat)
    requires IsUpload(upload, stream, maxSize) && forall i :: 0 <= i < |arrivals| ==> arrivals[i] in upload
    requires forall i :: 0 <= i < |upload| ==> upload[i] in arrivals
    requires !Run(arrivals, limit).overflowed
    ensures Run(arrivals, limit).written == stream && Run(arrivals, limit).pending == map[]
  {
    var chunks := Payloads(upload);
    assert Arrivals(arrivals, chunks);
    RunInv(arrivals, chunks, limit);
    var s := Run(arrivals, limit);
    forall k | 0 <= k < |chunks| ensures k in Seen(arrivals) {
      assert upload[k] in arrivals;
    }
    assert chunks[..s.next] == chunks;
  }

  // ---------------------------------------------------------------- when the session is given up

  /** The least number that has not arrived. */
  ghost predicate IsMissing(seen: set<nat>, m: nat) {
    m !in seen && forall k: nat :: k < m ==> k in seen
  }

  /** The numbers that arrived before their turn. */
  ghost function Early(seen: set<nat>, m: nat): set<nat> {
    set k | k in seen && k > m
  }

  /** Arrival `i` is new and not below the least missing number, and `limit` numbers arrived early. */
  ghost predicate CrowdedOut(packets: seq<Packet>, limit: nat, i: nat) {
    && i < |packets|
    && packets[i].sequence !in Seen(packets[..i])
    && exists m: nat ::
         IsMissing(Seen(packets[..i]), m) && packets[i].sequence >= m && |Early(Seen(packets[..i]), m)| >= limit
  }

  /** What is buffered are the early numbers, and the next number is the least missing one. */
  ghost predicate Tracks(s: State, seen: set<nat>) {
    IsMissing(seen, s.next) && s.pending.Keys == Early(seen, s.next)
  }

  lemma {:induction false} DrainNumbers(s: State, seen: set<nat>)
    requires (forall k: nat :: k < s.next ==> k in seen) && s.pending.Keys == (set k | k in seen && k >= s.next)
    ensures Drain(s).overflowed == s.overflowed && Tracks(Drain(s), seen)
    decreases |s.pending|
  {
    if s.next in s.pending {
      var pending := s.pending - {s.next};
      assert s.pending.Keys == pending.Keys + {s.next};
      assert pending.Keys == (set k | k in seen && k >= s.next + 1);
      DrainNumbers(State(pending, s.next + 1, s.written + s.pending[s.next], s.overflowed), seen);
    } else {
      assert s.next !in seen;
      assert s.pending.Keys == Early(seen, s.next);
    }
  }

  lemma HeldNumbers(s: State, p: Packet, seen: set<nat>)
    requires Tracks(s, seen) && p.sequence >= s.next
    ensures s.pending[p.sequence := p.payload].Keys == (set k | k in seen + {p.sequence} && k >= s.next)
    ensures p.sequence in s.pending <==> p.sequence in seen
  {
    assert s.pending[p.sequence := p.payload].Keys == s.pending.Keys + {p.sequence};
  }

  lemma TracksSize(s: State, seen: set<nat>)
    requires Tracks(s, seen)
    ensures |s.pending| == |Early(seen, s.next)|
  {
    hide Early;
    assert |s.pending| == |s.pending.Keys|;
  }

  lemma ReceiveNumbers(s: State, p: Packet, limit: nat, seen: set<nat>)
    requires !s.overflowed && Tracks(s, seen)
    ensures Receive(s, p, limit).overflowed <==>
            p.sequence !in seen && p.sequence >= s.next && |Early(seen, s.next)| >= limit
    ensures !Receive(s, p, limit).overflowed ==> Tracks(Receive(s, p, limit), seen + {p.sequence})
  {
    hide Drain, Early;
    TracksSize(s, seen);
    if p.sequence < s.next {
      assert seen + {p.sequence} == seen;
    } else {
      HeldNumbers(s, p, seen);
      hide Tracks;
      if !Overflows(s, p, limit) {
        DrainNumbers(s.(pending := s.pending[p.sequence := p.payload]), seen + {p.sequence});
      }
    }
  }

  lemma OneMissing(seen: set<nat>, m: nat, m': nat)
    requires IsMissing(seen, m) && IsMissing(seen, m')
    ensures m == m'
  {
  }

  lemma {:induction false} RunNumbers(packets: seq<Packet>, limit: nat)
    ensures Run(packets, limit).overflowed <==> exists i: nat :: CrowdedOut(packets, limit, i)
    ensures !Run(packets, limit).overflowed ==> Tracks(Run(packets, limit), Seen(packets))
    decreases |packets|
  {
    hide Receive, Early;
    if packets == [] {
      NothingEarly();
    } else {
      var n := |packets| - 1;
      var front, s := packets[..n], Run(packets[..n], limit);
      RunNumbers(front, limit);
      forall i: nat | i < n ensures CrowdedOut(front, limit, i) <==> CrowdedOut(packets, limit, i) {
        assert front[..i] == packets[..i];
      }
      if s.overflowed {
        StaysOverflowed(s, packets[n], limit);
      } else {
        ReceiveNumbers(s, packets[n], limit, Seen(front));
        LastCrowdedOut(packets, limit, s.next);
      }
    }
  }

  lemma LastCrowdedOut(packets: seq<Packet>, limit: nat, m: nat)
    requires packets != [] && IsMissing(Seen(packets[..|packets| - 1]), m)
    ensures
      var seen, k := Seen(packets[..|packets| - 1]), packets[|packets| - 1].sequence;
      CrowdedOut(packets, limit, |packets| - 1) <==> k !in seen && k >= m && |Early(seen, m)| >= limit
  {
    var seen := Seen(packets[..|packets| - 1]);
    forall m': nat | IsMissing(seen, m') ensures m' == m { OneMissing(seen, m, m'); }
  }

  lemma NothingEarly()
    ensures Tracks(Fresh, {})
  {
  }

  lemma StaysOverflowed(s: State, p: Packet, limit: nat)
    requires s.overflowed
    ensures Receive(s, p, limit).overflowed
  {
  }

  /**
   The session is given up if and only if some arrival is new, is not below the least number still
   missing, and finds `limit` numbers above that one arrived already.
   */
  lemma GivenUpIff(packets: seq<Packet>, limit: nat)
    ensures Run(packets, limit).overflowed <==> exists i: nat :: CrowdedOut(packets, limit, i)
  {
    RunNumbers(packets, limit);
  }

  // ---------------------------------------------------------------- bounded reordering never overflows

  /** A packet arrives only after all packets that are `limit` or more before it. */
  ghost predicate Displaced(packets: seq<Packet>, limit: nat)
    decreases |packets|
  {
    packets == [] ||
    (var front, p := packets[..|packets| - 1], packets[|packets| - 1];
     Displaced(front, limit) && forall t: nat :: t < p.sequence + 1 - limit ==> t in Seen(front))
  }

  /** At most `n` numbers lie in an interval of length `n`. */
  lemma {:induction false} IntervalCount(keys: set<nat>, lo: nat, n: nat)
    requires forall k :: k in keys ==> lo <= k < lo + n
    ensures |keys| <= n
    decreases n
  {
    if n == 0 {
      assert keys == {};
    } else {
      var rest := keys - {lo + n - 1};
      IntervalCount(rest, lo, n - 1);
      assert keys <= rest + {lo + n - 1};
      assert |keys| <= |rest + {lo + n - 1}| by { SubsetSize(keys, rest + {lo + n - 1}); }
    }
  }

  lemma NextGrows(s: State, p: Packet, limit: nat, chunks: seq<seq<byte>>)
    requires Correct(s, chunks) && p.sequence < |chunks| && p.payload == chunks[p.sequence]
    ensures s.next <= Receive(s, p, limit).next
  {
    if !s.overflowed && p.sequence >= s.next && !Overflows(s, p, limit) {
      DrainCorrect(s.(pending := s.pending[p.sequence := p.payload]), chunks);
    }
  }

  /** One arrival behind all packets that are `limit` or more before it finds room. */
  lemma ArrivalFits(s: State, chunks: seq<seq<byte>>, limit: nat, seen: set<nat>, p: Packet)
    requires Inv(s, chunks, limit, seen) && !s.overflowed && limit > 0
    requires p.sequence < |chunks| && p.payload == chunks[p.sequence]
    requires forall k :: k in seen ==> k < s.next + limit
    requires forall t: nat :: t < p.sequence + 1 - limit ==> t in seen
    ensures !Receive(s, p, limit).overflowed
    ensures forall k :: k in seen + {p.sequence} ==> k < Receive(s, p, limit).next + limit
  {
    IntervalCount(s.pending.Keys, s.next + 1, limit - 1);
    assert s.next !in seen;
    NextGrows(s, p, limit, chunks);
    if p.sequence >= s.next {
      DrainCorrect(s.(pending := s.pending[p.sequence := p.payload]), chunks);
    }
  }

  lemma {:induction false} BoundedReorderingHolds(packets: seq<Packet>, chunks: seq<seq<byte>>, limit: nat)
    requires Arrivals(packets, chunks) && Displaced(packets, limit) && limit > 0
    ensures !Run(packets, limit).overflowed
    ensures forall k :: k in Seen(packets) ==> k < Run(packets, limit).next + limit
    decreases |packets|
  {
    hide Inv, Receive;
    if packets != [] {
      var front, p := packets[..|packets| - 1], packets[|packets| - 1];
      BoundedReorderingHolds(front, chunks, limit);
      RunInv(front, chunks, limit);
      ArrivalFits(Run(front, limit), chunks, limit, Seen(front), p);
    }
  }

  /**
   If each packet arrives only after all packets that are `limit` or more before it, the buffer
   suffices and the whole stream is written.
   */
  lemma BoundedReorderingFits(upload: seq<Packet>, stream: seq<byte>, maxSize: nat, arrivals: seq<Packet>, limit: nat)
    requires IsUpload(upload, stream, maxSize) && forall i :: 0 <= i < |arrivals| ==> arrivals[i] in upload
    requires forall i :: 0 <= i < |upload| ==> upload[i] in arrivals
    requires Displaced(arrivals, limit) && limit > 0
    ensures !Run(arrivals, limit).overflowed && Run(arrivals, limit).written == stream
  {
    assert Arrivals(arrivals, Payloads(upload));
    BoundedReorderingHolds(arrivals, Payloads(upload), limit);
    FullDelivery(upload, stream, maxSize, arrivals, limit);
  }
}
