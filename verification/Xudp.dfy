/**
 XUDP framing inside a VLESS stream (src/vless.rs): the frame writer, the frame reader, and the
 packet reader that skips frames without a payload.

 Whether a byte string is UTF-8 is a parameter of the reader; the writer's domains satisfy it,
 since they come from a string type.
 */
module Xudp {
  import opened Basics
  import opened Octets

  /** A 16-bit number. */
  type Short = x: nat | x < 65536

  type Octets4 = o: Bytes | |o| == 4 witness [0, 0, 0, 0]

  type Octets16 = o: Bytes | |o| == 16 witness [0, 0, 0, 0, 0, 0, 0, 0, 0, 0, 0, 0, 0, 0, 0, 0]

  datatype Destination =
    | Ip4(v4: Octets4, port: Short)
    | Ip6(v6: Octets16, port: Short)
    | Domain(name: Bytes, port: Short)

  datatype Frame = Frame(session: Short, status: byte, destination: Option<Destination>, payload: Option<Bytes>)

  /** Reading from a stream: a value and what is left, an early end, or a protocol error. */
  datatype Read<+T> = Got(value: T, rest: Bytes) | Ended | Refused

  // ---------------------------------------------------------------- the writer

  predicate DomainTooLong(d: Destination) {
    d.Domain? && |d.name| > 255
  }

  /** `encode_destination_bytes` when it succeeds. */
  function Address(d: Destination): (a: Bytes)
    requires !DomainTooLong(d)
    ensures |a| <= 259
  {
    U16Bytes(d.port) +
    match d
    case Ip4(v4, _) => [1] + v4
    case Ip6(v6, _) => [3] + v6
    case Domain(name, _) => [2, |name| as byte] + name
  }

  /** A frame up to its payload length. */
  function Header(session: Short, status: byte, d: Destination): Bytes
    requires !DomainTooLong(d)
  {
    U16Bytes(5 + |Address(d)|) + (U16Bytes(session) + ([status, 1, 2] + Address(d)))
  }

  function Encoded(session: Short, status: byte, d: Destination, payload: Bytes): Bytes
    requires !DomainTooLong(d) && |payload| < 65536
  {
    Header(session, status, d) + (U16Bytes(|payload|) + payload)
  }

  class Stream {
    var written: Bytes

    method Write(bytes: Bytes)
      modifies this
      ensures written == old(written) + bytes
    {
      written := written + bytes;
    }

    /**
     `write_xudp_frame`. A domain that is too long is refused before anything is written, a payload
     that is too long only after the header.
     */
    method WriteFrame(session: Short, status: byte, d: Destination, payload: Bytes) returns (ok: bool)
      modifies this
      ensures ok <==> !DomainTooLong(d) && |payload| < 65536
      ensures DomainTooLong(d) ==> written == old(written)
      ensures !DomainTooLong(d) ==>
                written == old(written) +
                  (if ok then Encoded(session, status, d, payload) else Header(session, status, d))
    {
      hide Address, U16Bytes;
      if DomainTooLong(d) {
        return false;
      }
      var address := Address(d);
      Write(U16Bytes(5 + |address|));
      Write(U16Bytes(session));
      Write([status, 1, 2]);
      Write(address);
      Join4(old(written), U16Bytes(5 + |address|), U16Bytes(session), [status, 1, 2], address);
      if |payload| >= 65536 {
        return false;
      }
      Write(U16Bytes(|payload|));
      Write(payload);
      Join2(old(written), Header(session, status, d), U16Bytes(|payload|), payload);
      return true;
    }
  }

  lemma Join4(s: Bytes, a: Bytes, b: Bytes, c: Bytes, d: Bytes)
    ensures s + a + b + c + d == s + (a + (b + (c + d)))
  {
  }

  lemma Join2(s: Bytes, a: Bytes, b: Bytes, c: Bytes)
    ensures s + a + b + c == s + (a + (b + c))
  {
  }

  // ---------------------------------------------------------------- the reader

  /** `parse_destination_bytes`: bytes after the destination are ignored. */
  function ParseDestination(utf8: Bytes -> bool, bytes: Bytes): Option<Destination> {
    if |bytes| < 3 then None
    else
      var port, b := U16(bytes, 0), bytes[2..];
      if b[0] == 1 && |b| >= 5 then Some(Ip4(b[1..5], port))
      else if b[0] == 2 && |b| >= 2 && |b| >= b[1] as nat + 2 then
        var name := b[2..2 + b[1] as nat];
        if utf8(name) then Some(Domain(name, port)) else None
      else if b[0] == 3 && |b| >= 17 then Some(Ip6(b[1..17], port))
      else None
  }

  function ReadPayload(session: Short, status: byte, option: byte, d: Option<Destination>, s: Bytes): (r: Read<Frame>)
    ensures r.Got? ==> |r.rest| <= |s|
  {
    if option % 2 == 0 then
      if option / 2 % 2 != 0 then Refused else Got(Frame(session, status, d, None), s)
    else if |s| < 2 || |s| < 2 + U16(s, 0) then Ended
    else if option / 2 % 2 != 0 then Refused
    else Got(Frame(session, status, d, Some(s[2..2 + U16(s, 0)])), s[2 + U16(s, 0)..])
  }

  /** `read_xudp_frame`. */
  function ReadFrame(utf8: Bytes -> bool, s: Bytes): (r: Read<Frame>)
    ensures r.Got? ==> |r.rest| < |s|
  {
    if |s| < 2 then Ended
    else
      var length := U16(s, 0);
      if length < 4 then Refused
      else if |s| < 6 then Ended
      else
        var session, status, option, more := U16(s[2..], 0), s[4], s[5], s[6..];
        if length == 4 then ReadPayload(session, status, option, None, more)
        else if |more| < length - 4 then Ended
        else if more[0] != 2 then Refused
        else
          var d := ParseDestination(utf8, more[1..length - 4]);
          if d.None? then Refused else ReadPayload(session, status, option, d, more[length - 4..])
  }

  /** `read_xudp_packet` as recursion over the frames. */
  function ReadPacket(utf8: Bytes -> bool, s: Bytes): (r: Read<(Option<Destination>, Bytes)>)
    ensures r.Got? ==> |r.rest| < |s|
    decreases |s|
  {
    match ReadFrame(utf8, s)
    case Got(frame, rest) =>
      if frame.status == 3 then Refused
      else if frame.payload.Some? then Got((frame.destination, frame.payload.value), rest)
      else ReadPacket(utf8, rest)
    case Ended => Ended
    case Refused => Refused
  }

  /** The stream being read. */
  class Source {
    var left: Bytes

    constructor (left: Bytes)
      ensures this.left == left
    {
      this.left := left;
    }

    /** Reads exactly `n` bytes, or finds the end. */
    method Take(n: nat) returns (r: Option<Bytes>)
      modifies this
      ensures r.Some? <==> n <= |old(left)|
      ensures r.Some? ==> r.value == old(left)[..n] && left == old(left)[n..]
    {
      if n > |left| { return None; }
      r := Some(left[..n]);
      left := left[n..];
    }

    method Payload(session: Short, status: byte, option: byte, d: Option<Destination>) returns (r: Read<Frame>)
      modifies this
      ensures r == ReadPayload(session, status, option, d, old(left))
      ensures r.Got? ==> left == r.rest
    {
      var payload: Option<Bytes> := None;
      if option % 2 != 0 {
        var length := Take(2);
        if length == None { return Ended; }
        payload := Take(U16(length.value, 0));
        if payload == None { return Ended; }
        ghost var n := U16(length.value, 0);
        assert payload.value == old(left)[2..2 + n] && left == old(left)[2 + n..];
      }
      if option / 2 % 2 != 0 { return Refused; }
      return Got(Frame(session, status, d, payload), left);
    }

    /** `read_xudp_frame`, piece by piece. */
    method NextFrame(utf8: Bytes -> bool) returns (r: Read<Frame>)
      modifies this
      ensures r == ReadFrame(utf8, old(left))
      ensures r.Got? ==> left == r.rest
    {
      hide ReadPayload, ParseDestination;
      var prefix := Take(2);
      if prefix == None { return Ended; }
      var length := U16(prefix.value, 0);
      if length < 4 { return Refused; }
      var fixed := Take(4);
      if fixed == None { return Ended; }
      var session, status, option := U16(fixed.value, 0), fixed.value[2], fixed.value[3];
      assert left == old(left)[6..];
      if length == 4 {
        r := Payload(session, status, option, None);
        return;
      }
      var remaining := Take(length - 4);
      if remaining == None { return Ended; }
      if remaining.value[0] != 2 { return Refused; }
      assert remaining.value[1..] == old(left)[6..][1..length - 4];
      var d := ParseDestination(utf8, remaining.value[1..]);
      if d == None { return Refused; }
      r := Payload(session, status, option, d);
    }

    /** `read_xudp_packet`. */
    method NextPacket(utf8: Bytes -> bool) returns (r: Read<(Option<Destination>, Bytes)>)
      modifies this
      ensures r == ReadPacket(utf8, old(left))
      ensures r.Got? ==> left == r.rest
    {
      hide ReadFrame;
      while true
        invariant ReadPacket(utf8, old(left)) == ReadPacket(utf8, left)
        decreases |left|
      {
        var frame := NextFrame(utf8);
        if frame == Ended { return Ended; }
        if frame == Refused { return Refused; }
        if frame.value.status == 3 { return Refused; }
        if frame.value.payload.Some? {
          return Got((frame.value.destination, frame.value.payload.value), left);
        }
      }
    }
  }

  // ---------------------------------------------------------------- reading back what was written

  /** What the string type guarantees of a domain, and what the writer accepts. */
  ghost predicate Sendable(utf8: Bytes -> bool, d: Destination) {
    !DomainTooLong(d) && (d.Domain? ==> utf8(d.name))
  }

  lemma U16RoundTrip(n: Short, more: Bytes)
    ensures |U16Bytes(n)| == 2 && U16(U16Bytes(n) + more, 0) == n
  {
  }

  lemma DestinationRoundTrip(utf8: Bytes -> bool, d: Destination)
    requires Sendable(utf8, d)
    ensures ParseDestination(utf8, Address(d)) == Some(d)
  {
    hide U16Bytes, U16;
    var a := Address(d);
    U16RoundTrip(d.port, a[2..]);
    match d
    case Ip4(v4, port) => assert a[2..] == [1] + v4; assert a[2..][1..5] == v4;
    case Ip6(v6, port) => assert a[2..] == [3] + v6; assert a[2..][1..17] == v6;
    case Domain(name, port) => assert a[2..] == [2, |name| as byte] + name; assert a[2..][2..2 + |name|] == name;
  }

  /** Reading a header leaves the payload to be read from whatever follows it. */
  lemma HeaderRead(utf8: Bytes -> bool, session: Short, status: byte, d: Destination, more: Bytes)
    requires Sendable(utf8, d)
    ensures ReadFrame(utf8, Header(session, status, d) + more) == ReadPayload(session, status, 1, Some(d), more)
  {
    hide U16Bytes, U16, ReadPayload, ParseDestination, Address;
    var a := Address(d);
    var tail := U16Bytes(session) + ([status, 1, 2] + a);
    var s := Header(session, status, d) + more;
    AddressLength(d);
    U16RoundTrip(5 + |a|, tail + more);
    assert s == U16Bytes(5 + |a|) + (tail + more);
    U16RoundTrip(session, [status, 1, 2] + a + more);
    assert s[2..] == U16Bytes(session) + ([status, 1, 2] + a + more);
    assert s[6..] == [2] + a + more;
    assert s[6..][1..1 + |a|] == a;
    assert s[6..][1 + |a|..] == more;
    DestinationRoundTrip(utf8, d);
  }

  lemma AddressLength(d: Destination)
    requires !DomainTooLong(d)
    ensures |Address(d)| >= 4
  {
  }

  lemma FrameRoundTrip(utf8: Bytes -> bool, session: Short, status: byte, d: Destination, payload: Bytes, rest: Bytes)
    requires Sendable(utf8, d) && |payload| < 65536
    ensures ReadFrame(utf8, Encoded(session, status, d, payload) + rest) ==
            Got(Frame(session, status, Some(d), Some(payload)), rest)
  {
    hide U16Bytes, U16, ReadFrame, Header;
    var more := U16Bytes(|payload|) + payload + rest;
    assert Encoded(session, status, d, payload) + rest == Header(session, status, d) + more;
    HeaderRead(utf8, session, status, d, more);
    U16RoundTrip(|payload|, payload + rest);
    assert more == U16Bytes(|payload|) + (payload + rest);
    assert more[2..2 + |payload|] == payload && more[2 + |payload|..] == rest;
  }

  // ---------------------------------------------------------------- what the reader accepts

  /** What stands between the option octet and the payload: nothing, or the network, a destination and some slack. */
  ghost function MetaBytes(d: Option<Destination>, slack: Bytes): Bytes
    requires d.Some? ==> !DomainTooLong(d.value)
  {
    if d.None? then [] else [2] + Address(d.value) + slack
  }

  ghost function PayloadBytes(payload: Option<Bytes>): Bytes
    requires payload.Some? ==> |payload.value| < 65536
  {
    if payload.None? then [] else U16Bytes(|payload.value|) + payload.value
  }

  /** The octets of a frame in full generality: with or without destination and payload, and with slack. */
  ghost predicate WrittenAs(utf8: Bytes -> bool, f: Frame, option: byte, slack: Bytes, s: Bytes) {
    && (f.destination.Some? ==> Sendable(utf8, f.destination.value))
    && (f.payload.Some? ==> |f.payload.value| < 65536)
    && option % 4 == (if f.payload.Some? then 1 else 0)
    && 4 + |MetaBytes(f.destination, slack)| < 65536
    && s == U16Bytes(4 + |MetaBytes(f.destination, slack)|) + (U16Bytes(f.session) + ([f.status, option] +
              (MetaBytes(f.destination, slack) + PayloadBytes(f.payload))))
  }

  lemma ParsedIsAddress(utf8: Bytes -> bool, bytes: Bytes) returns (slack: Bytes)
    requires ParseDestination(utf8, bytes).Some?
    ensures
      var d := ParseDestination(utf8, bytes).value;
      Sendable(utf8, d) && bytes == Address(d) + slack
  {
    var d := ParseDestination(utf8, bytes).value;
    U16Read(bytes, 0);
    assert bytes[0..2] == bytes[..2];
    var n := match d case Ip4(_, _) => 7 case Ip6(_, _) => 19 case Domain(name, _) => 4 + |name|;
    slack := bytes[n..];
    assert bytes == bytes[..2] + bytes[2..n] + slack;
  }

  lemma PayloadWritten(session: Short, status: byte, option: byte, d: Option<Destination>, s: Bytes)
    requires ReadPayload(session, status, option, d, s).Got?
    ensures
      var r := ReadPayload(session, status, option, d, s);
      && r.value.session == session && r.value.status == status && r.value.destination == d
      && (r.value.payload.Some? ==> |r.value.payload.value| < 65536)
      && option % 4 == (if r.value.payload.Some? then 1 else 0)
      && s == PayloadBytes(r.value.payload) + r.rest
  {
    if option % 2 != 0 {
      U16Read(s, 0);
      assert s[0..2] == s[..2];
    }
  }

  /** The part of an accepted frame before its payload. */
  lemma MetaWritten(utf8: Bytes -> bool, s: Bytes) returns (d: Option<Destination>, slack: Bytes)
    requires ReadFrame(utf8, s).Got?
    ensures |s| >= 6 && 4 <= U16(s, 0) <= |s| - 2
    ensures d.Some? ==> Sendable(utf8, d.value)
    ensures MetaBytes(d, slack) == s[6..2 + U16(s, 0)]
    ensures ReadFrame(utf8, s) == ReadPayload(U16(s[2..], 0), s[4], s[5], d, s[2 + U16(s, 0)..])
  {
    hide ReadPayload, ParseDestination, Address, U16;
    var n, more := U16(s, 0), s[6..];
    d, slack := None, [];
    if n > 4 {
      d := ParseDestination(utf8, more[1..n - 4]);
      slack := ParsedIsAddress(utf8, more[1..n - 4]);
      assert s[6..2 + n] == [2] + more[1..n - 4];
      assert MetaBytes(d, slack) == [2] + (Address(d.value) + slack);
    }
    assert more[n - 4..] == s[2 + n..];
  }

  /** Whatever the reader accepts is a frame so written, followed by what it leaves. */
  lemma AcceptedIsFrame(utf8: Bytes -> bool, s: Bytes) returns (option: byte, slack: Bytes, front: Bytes)
    requires ReadFrame(utf8, s).Got?
    ensures WrittenAs(utf8, ReadFrame(utf8, s).value, option, slack, front) && s == front + ReadFrame(utf8, s).rest
  {
    hide ReadFrame, ReadPayload, ParseDestination, MetaBytes, U16, U16Bytes, PayloadBytes;
    var d;
    d, slack := MetaWritten(utf8, s);
    option := s[5];
    var f, rest, n := ReadFrame(utf8, s).value, ReadFrame(utf8, s).rest, U16(s, 0);
    PayloadWritten(U16(s[2..], 0), s[4], option, d, s[2 + n..]);
    HeadWritten(s);
    var body := MetaBytes(d, slack) + PayloadBytes(f.payload);
    front := s[..6] + body;
    Cut(s, n);
    Regroup(U16Bytes(n), U16Bytes(f.session), [f.status, option], body);
    Assemble(s[..6], MetaBytes(d, slack), PayloadBytes(f.payload), rest);
  }

  lemma Cut(s: Bytes, n: nat)
    requires 4 <= n <= |s| - 2
    ensures s == s[..6] + (s[6..2 + n] + s[2 + n..])
  {
  }

  lemma Assemble(a: Bytes, b: Bytes, c: Bytes, d: Bytes)
    ensures a + (b + c) + d == a + (b + (c + d))
  {
  }

  lemma HeadWritten(s: Bytes)
    requires |s| >= 6
    ensures s[..6] == U16Bytes(U16(s, 0)) + U16Bytes(U16(s[2..], 0)) + [s[4], s[5]]
  {
    U16Read(s, 0);
    U16Read(s[2..], 0);
    assert s[0..2] == s[..2] && s[2..][0..2] == s[2..4];
  }

  lemma Regroup(a: Bytes, b: Bytes, c: Bytes, d: Bytes)
    ensures a + b + c + d == a + (b + (c + d))
  {
  }

  // ---------------------------------------------------------------- streams

  /** What a peer puts on the stream: frames of the writer above, and frames without payload. */
  datatype Item =
    | Packet(session: Short, status: byte, destination: Destination, payload: Bytes)
    | Quiet(session: Short, status: byte, option: byte)

  ghost predicate ItemOk(utf8: Bytes -> bool, item: Item) {
    match item
    case Packet(_, _, d, payload) => Sendable(utf8, d) && |payload| < 65536
    case Quiet(_, _, option) => option % 4 == 0
  }

  ghost function ItemBytes(utf8: Bytes -> bool, item: Item): Bytes
    requires ItemOk(utf8, item)
  {
    match item
    case Packet(session, status, d, payload) => Encoded(session, status, d, payload)
    case Quiet(session, status, option) => U16Bytes(4) + (U16Bytes(session) + [status, option])
  }

  function FrameOf(item: Item): Frame {
    match item
    case Packet(session, status, d, payload) => Frame(session, status, Some(d), Some(payload))
    case Quiet(session, status, _) => Frame(session, status, None, None)
  }

  ghost predicate ItemsOk(utf8: Bytes -> bool, items: seq<Item>) {
    forall i :: 0 <= i < |items| ==> ItemOk(utf8, items[i])
  }

  ghost function Wire(utf8: Bytes -> bool, items: seq<Item>): Bytes
    requires ItemsOk(utf8, items)
  {
    if items == [] then [] else ItemBytes(utf8, items[0]) + Wire(utf8, items[1..])
  }

  function Frames(items: seq<Item>): seq<Frame> {
    if items == [] then [] else [FrameOf(items[0])] + Frames(items[1..])
  }

  /** The packets before the first frame that ends the session, and how reading them ends. */
  function Packets(items: seq<Item>): (seq<(Option<Destination>, Bytes)>, Read<()>) {
    if items == [] then ([], Ended)
    else if items[0].status == 3 then ([], Refused)
    else
      var rest := Packets(items[1..]);
      if items[0].Packet? then ([(Some(items[0].destination), items[0].payload)] + rest.0, rest.1) else rest
  }

  /** All frames of a stream, and the bytes that are left when no further frame can be read. */
  ghost function ReadFrames(utf8: Bytes -> bool, s: Bytes): (seq<Frame>, Bytes)
    decreases |s|
  {
    match ReadFrame(utf8, s)
    case Got(frame, rest) => ([frame] + ReadFrames(utf8, rest).0, ReadFrames(utf8, rest).1)
    case _ => ([], s)
  }

  /** All packets of a stream, and how reading ends. */
  ghost function ReadAll(utf8: Bytes -> bool, s: Bytes): (seq<(Option<Destination>, Bytes)>, Read<()>)
    decreases |s|
  {
    match ReadPacket(utf8, s)
    case Got(packet, rest) => ([packet] + ReadAll(utf8, rest).0, ReadAll(utf8, rest).1)
    case Ended => ([], Ended)
    case Refused => ([], Refused)
  }

  lemma QuietRead(utf8: Bytes -> bool, session: Short, status: byte, option: byte, rest: Bytes)
    requires option % 4 == 0
    ensures ReadFrame(utf8, (U16Bytes(4) + (U16Bytes(session) + [status, option])) + rest) ==
            Got(Frame(session, status, None, None), rest)
  {
    hide U16Bytes, U16, ParseDestination;
    var s := (U16Bytes(4) + (U16Bytes(session) + [status, option])) + rest;
    U16RoundTrip(4, U16Bytes(session) + [status, option] + rest);
    assert s == U16Bytes(4) + (U16Bytes(session) + [status, option] + rest);
    U16RoundTrip(session, [status, option] + rest);
    assert s[2..] == U16Bytes(session) + ([status, option] + rest);
    assert s[6..] == rest;
    var half := option / 2;
    assert half % 2 == 0;
  }

  lemma ItemRead(utf8: Bytes -> bool, item: Item, rest: Bytes)
    requires ItemOk(utf8, item)
    ensures ReadFrame(utf8, ItemBytes(utf8, item) + rest) == Got(FrameOf(item), rest)
  {
    hide Encoded, ReadFrame, U16Bytes;
    match item
    case Packet(session, status, d, payload) => FrameRoundTrip(utf8, session, status, d, payload, rest);
    case Quiet(session, status, option) => QuietRead(utf8, session, status, option, rest);
  }

  /**
   Any frames written back to back are read as the same frames, session and status included, and
   nothing is left over.
   */
  lemma {:induction false} FramesRoundTrip(utf8: Bytes -> bool, items: seq<Item>)
    requires ItemsOk(utf8, items)
    ensures ReadFrames(utf8, Wire(utf8, items)) == (Frames(items), [])
    decreases |items|
  {
    hide ItemBytes, ReadFrame, FrameOf, ItemOk;
    if items == [] {
      NothingToRead(utf8);
    } else {
      FramesRoundTrip(utf8, items[1..]);
      ItemRead(utf8, items[0], Wire(utf8, items[1..]));
    }
  }

  /**
   The packet reader gets exactly the packets before the first frame that ends the session, in
   order, each with its own boundary; it then reports the end of the session or of the stream.
   */
  lemma {:induction false} StreamRoundTrip(utf8: Bytes -> bool, items: seq<Item>)
    requires ItemsOk(utf8, items)
    ensures ReadAll(utf8, Wire(utf8, items)) == Packets(items)
    decreases |items|
  {
    hide ItemBytes, ReadFrame, ItemOk;
    if items == [] {
      NothingToRead(utf8);
    } else {
      var rest := Wire(utf8, items[1..]);
      StreamRoundTrip(utf8, items[1..]);
      ItemRead(utf8, items[0], rest);
      if items[0].status != 3 && items[0].Quiet? {
        assert ReadPacket(utf8, Wire(utf8, items)) == ReadPacket(utf8, rest);
        SamePacketSameRest(utf8, Wire(utf8, items), rest);
      }
    }
  }

  lemma SamePacketSameRest(utf8: Bytes -> bool, s: Bytes, t: Bytes)
    ensures ReadPacket(utf8, s) == ReadPacket(utf8, t) ==> ReadAll(utf8, s) == ReadAll(utf8, t)
  {
  }

  lemma NothingToRead(utf8: Bytes -> bool)
    ensures ReadFrame(utf8, []) == Ended
  {
  }

  /**
   When a payload was too long, only its header is on the stream. The reader then takes the next
   frame's header for the payload, and that frame's payload for a frame.
   */
  lemma PartialFrameMisread(
    utf8: Bytes -> bool, session: Short, status: byte, a: Destination,
    session': Short, status': byte, b: Destination, payload: Bytes, rest: Bytes)
    requires Sendable(utf8, a) && Sendable(utf8, b) && |payload| < 65536
    ensures ReadFrame(utf8, Header(session, status, a) + (Encoded(session', status', b, payload) + rest)) ==
            Got(Frame(session, status, Some(a), Some(U16Bytes(session') + ([status', 1, 2] + Address(b)))),
                U16Bytes(|payload|) + payload + rest)
  {
    hide U16Bytes, U16, ReadFrame, Address;
    var more := Encoded(session', status', b, payload) + rest;
    HeaderRead(utf8, session, status, a, more);
    var n, inner := 5 + |Address(b)|, U16Bytes(session') + ([status', 1, 2] + Address(b));
    var outer := U16Bytes(|payload|) + payload + rest;
    U16RoundTrip(n, inner + outer);
    U16RoundTrip(session', []);
    assert more == U16Bytes(n) + (inner + outer);
    assert |inner| == n;
    assert more[2..2 + n] == inner && more[2 + n..] == outer;
  }
}
