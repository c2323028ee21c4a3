/** Ping: a frame with a time stamp that every other node sends back with its own time stamp filled in. */
module Ping {
  import opened MachineTypes
  import opened NetTime
  import opened LowNet
  import Crypt

  const PING: uint8 := 0x03
  const PACKET_SIZE := 11      // two time stamps and the origin
  const STAMP := 5

  // ----- Frames -----

  function StampOut(f: Frame): seq<uint8> { Payload(f)[..STAMP] }
  function StampBack(f: Frame): seq<uint8> { Payload(f)[STAMP..2 * STAMP] }
  function Origin(f: Frame): uint8 { Payload(f)[2 * STAMP] }

  /** The payload behind the ping packet. */
  function Trailer(f: Frame): seq<uint8>
    requires PACKET_SIZE <= Length(f) <= PAYLOAD_SIZE
  {
    Payload(f)[PACKET_SIZE..Length(f)]
  }

  function ToStamp(t: Time): (s: seq<uint8>)
    ensures |s| == STAMP
  {
    ToLe(t.seconds, 4) + [t.parts]
  }

  function FromStamp(s: seq<uint8>): Time
    requires |s| == STAMP
  {
    FromLe4(s[..4]);
    Time(FromLe(s[..4]), s[4])
  }

  /** A ping in a frame: when it went out, when it came back, both with four bytes of seconds, the lowest first, and
      one of parts; who asked; and whatever follows. */
  lemma {:induction false} PingFields(f: Frame)
    ensures StampOut(f) == f[8..13] && StampBack(f) == f[13..18] && Origin(f) == f[18]
    ensures 11 <= f[5] <= 200 ==> Trailer(f) == f[19..8 + f[5]]
  {
    PayloadSlice(f, 0, 5); PayloadSlice(f, 5, 10);
    if 11 <= f[5] <= 200 { PayloadSlice(f, 11, f[5]); }
  }

  lemma {:induction false} StampIs(t: Time)
    ensures var s := ToStamp(t); Word(s[0], s[1], s[2], s[3]) == t.seconds && s[4] == t.parts
  {
    var s := ToStamp(t);
    assert s[..4] == ToLe(t.seconds, 4);
    Pow2Add(16, 16); Pow2Add(8, 8);
    LeRoundTrip(t.seconds, 4);
    FromLe4(s[..4]);
    hide FromLe; hide ToLe; hide Pow2;
  }

  lemma {:induction false} StampRoundTrip(t: Time)
    ensures FromStamp(ToStamp(t)) == t
  {
    assert ToStamp(t)[..4] == ToLe(t.seconds, 4);
    Pow2Add(16, 16); Pow2Add(8, 8);
    LeRoundTrip(t.seconds, 4);
  }

  /** What the handler does with a ping: show the round trip of an own one, or send another one back. The
      copy of a payload longer than a frame's goes beyond the reply. */
  datatype Reaction = Show(node: uint8, roundTrip: Time) | Reply(frame: Frame) | Overrun | Ignore

  /** The fields of a ping, from the bytes of its payload. */
  lemma {:induction false} FieldsOf(f: Frame, body: seq<uint8>)
    requires PACKET_SIZE <= |body| <= PAYLOAD_SIZE && Length(f) == |body| && Payload(f)[..|body|] == body
    ensures StampOut(f) == body[..STAMP] && StampBack(f) == body[STAMP..2 * STAMP]
    ensures Origin(f) == body[2 * STAMP] && Trailer(f) == body[PACKET_SIZE..]
  {
    assert Payload(f)[..STAMP] == Payload(f)[..|body|][..STAMP];
    assert Payload(f)[STAMP..2 * STAMP] == Payload(f)[..|body|][STAMP..2 * STAMP];
    assert Payload(f)[2 * STAMP] == Payload(f)[..|body|][2 * STAMP];
    assert Payload(f)[PACKET_SIZE..|body|] == Payload(f)[..|body|][PACKET_SIZE..];
  }

  /** A frame whose four header fields and whose payload have been written. */
  lemma {:induction false} Written(memory: Frame, header: seq<uint8>, body: seq<uint8>)
    requires |header| == 4 && |body| <= PAYLOAD_SIZE
    ensures var f: Frame := Crypt.Put(Crypt.Put(memory, 2, header), PAYLOAD, body);
            && [Source(f), Destination(f), Protocol(f), Length(f)] == header
            && Payload(f)[..|body|] == body
  {
    var s := Crypt.Put(memory, 2, header);
    Crypt.PutSlices(memory, 2, header, 0, 0);
    Crypt.PutSlices(s, PAYLOAD, body, 2, 6);
    var f := Crypt.Put(s, PAYLOAD, body);
    assert f[2..6] == header;
    assert f[PAYLOAD..COVERED][..|body|] == f[PAYLOAD..PAYLOAD + |body|];
  }

  // ----- The handlers -----

  /** `memory` is what the frame and the packet on the stack held before. The payload buffer has at least
      `length` bytes. */
  method Ask(identity: uint8, now: Time, node: uint8, payload: Option<seq<uint8>>, length: uint8, memory: Frame)
      returns (frame: Frame)
    requires payload.Some? ==> |payload.value| >= length
    ensures frame[3] == node && frame[4] == 3
    ensures StampOut(frame) == ToStamp(now) && Origin(frame) == identity
    ensures frame[5] == 11 + (if payload.None? then 0 else Min(189, length))
    ensures Trailer(frame) == if payload.None? then [] else payload.value[..Length(frame) - PACKET_SIZE]
  {
    var f := new uint8[FRAME_SIZE];
    Crypt.Write(f, 0, memory);
    assert f[..] == memory;
    var packet := ToStamp(now) + memory[PAYLOAD + STAMP..PAYLOAD + 2 * STAMP] + [identity];
    var extra: seq<uint8> := [];
    if payload.Some? { extra := payload.value[..Min(PAYLOAD_SIZE - PACKET_SIZE, length)]; }
    Crypt.Write(f, 2, [identity, node, PING, PACKET_SIZE + |extra|]);
    Crypt.Write(f, PAYLOAD, packet);
    Crypt.Write(f, PAYLOAD + PACKET_SIZE, extra);
    frame := f[..];
    var header := [identity, node, PING, PACKET_SIZE + |extra|];
    Crypt.PutTwice(Crypt.Put(memory, 2, header), PAYLOAD, packet, extra);
    Written(memory, header, packet + extra);
    hide Crypt.Put;
    FieldsOf(frame, packet + extra);
    assert (packet + extra)[..STAMP] == ToStamp(now) && (packet + extra)[PACKET_SIZE..] == extra;
  }

  /** `reply` is the answer to ping `f` at time `now`, before it is sent. */
  predicate Answers(reply: Frame, f: Frame, now: Time) {
    && PACKET_SIZE <= Length(f) <= PAYLOAD_SIZE
    && Destination(reply) == Source(f) && Protocol(reply) == PING && Length(reply) == Length(f)
    && StampOut(reply) == StampOut(f) && StampBack(reply) == ToStamp(now)
    && Origin(reply) == Origin(f) && Trailer(reply) == Trailer(f)
  }

  /** Where the answer and the ping agree, on their bytes: to the sender, with protocol 3, the same length, the same
      stamp out, origin and trailing bytes, and the present time as the stamp back. */
  lemma {:induction false} AnswersExactly(reply: Frame, f: Frame, now: Time)
    ensures Answers(reply, f, now) <==>
      (11 <= f[5] <= 200 && reply[3] == f[2] && reply[4] == 3 && reply[5] == f[5]
       && reply[8..13] == f[8..13] && reply[18] == f[18] && reply[19..8 + f[5]] == f[19..8 + f[5]]
       && Word(reply[13], reply[14], reply[15], reply[16]) == now.seconds && reply[17] == now.parts)
  {
    PingFields(f); PingFields(reply);
    StampExactly(reply[13..18], now);
    hide StampOut; hide StampBack; hide Origin; hide Trailer; hide ToStamp; hide Word;
  }

  lemma {:induction false} StampExactly(s: seq<uint8>, t: Time)
    requires |s| == 5
    ensures s == ToStamp(t) <==> Word(s[0], s[1], s[2], s[3]) == t.seconds && s[4] == t.parts
  {
    StampIs(t);
    var u := ToStamp(t);
    FromLe4(s[..4]); FromLe4(u[..4]);
    if Word(s[0], s[1], s[2], s[3]) == t.seconds && s[4] == t.parts {
      FromLeInjective(s[..4], u[..4]);
      assert s == s[..4] + [s[4]] && u == u[..4] + [u[4]];
    }
    hide FromLe; hide ToStamp; hide Word;
  }

  /** ping_receive. */
  method PingReceive(identity: uint8, now: Time, f: Frame, memory: Frame) returns (reaction: Reaction)
    ensures f[5] < 11 <==> reaction == Ignore
    ensures f[5] >= 11 && f[18] == identity <==> reaction == Show(f[2], Diff(FromStamp(f[8..13]), now))
    ensures f[5] > 200 && f[18] != identity <==> reaction == Overrun
    ensures 11 <= f[5] <= 200 && f[18] != identity
       <==> reaction.Reply? && Answers(reaction.frame, f, now)
  {
    PingFields(f);
    hide StampOut; hide StampBack; hide Origin; hide Trailer; hide Answers; hide FromStamp; hide Diff;
    if Length(f) < PACKET_SIZE { return Ignore; }
    if Origin(f) == identity { return Show(Source(f), Diff(FromStamp(StampOut(f)), now)); }
    var reply := AnswerTo(identity, now, f, memory);
    return if reply.None? then Overrun else Reply(reply.value);
  }

  /** The reply: the payload is copied, if it fits, and then the packet at its front is overwritten. */
  method AnswerTo(identity: uint8, now: Time, f: Frame, memory: Frame) returns (reply: Option<Frame>)
    requires PACKET_SIZE <= Length(f)
    ensures reply.Some? <==> Length(f) <= PAYLOAD_SIZE
    ensures reply.Some? ==> Answers(reply.value, f, now)
  {
    if Length(f) > PAYLOAD_SIZE { return None; }
    var packet := StampOut(f) + ToStamp(now) + [Origin(f)];
    var header := [identity, Source(f), PING, Length(f)];
    var r := new uint8[FRAME_SIZE];
    Crypt.Write(r, 0, memory);
    assert r[..] == memory;
    Crypt.Write(r, 2, header);
    Crypt.Write(r, PAYLOAD, Payload(f)[..Length(f)]);
    Crypt.Write(r, PAYLOAD, packet);
    var frame := r[..];
    ghost var s := Crypt.Put(memory, 2, header);
    ghost var rest := Trailer(f);
    Overwritten(s, Payload(f)[..Length(f)], packet);
    assert Payload(f)[..Length(f)][PACKET_SIZE..] == rest;
    Written(memory, header, packet + rest);
    hide Crypt.Put;
    FieldsOf(frame, packet + rest);
    assert (packet + rest)[..STAMP] == StampOut(f) && (packet + rest)[PACKET_SIZE..] == rest;
    assert (packet + rest)[STAMP..2 * STAMP] == ToStamp(now);
    return Some(frame);
  }

  lemma {:induction false} Overwritten(s: Frame, body: seq<uint8>, packet: seq<uint8>)
    requires |packet| <= |body| <= PAYLOAD_SIZE
    ensures Crypt.Put(Crypt.Put(s, PAYLOAD, body), PAYLOAD, packet) == Crypt.Put(s, PAYLOAD, packet + body[|packet|..])
  {
    var front, back := body[..|packet|], body[|packet|..];
    assert body == front + back;
    var t := Crypt.Put(s, PAYLOAD, body);
    assert t[PAYLOAD + |packet|..] == back + s[PAYLOAD + |body|..];
    assert t[..PAYLOAD] == s[..PAYLOAD];
  }

  // ----- A network of nodes -----

  /** A ping on the air: the fields the handlers look at, and the nodes that may still receive it. */
  datatype Message = Message(source: uint8, destination: uint8, origin: uint8, stampOut: seq<uint8>, trailer: seq<uint8>)
  datatype Flight = Flight(message: Message, receivers: set<uint8>)

  /** All node identities, what is on the air, and every ping that was sent by its origin. */
  datatype Network = Network(nodes: set<uint8>, air: seq<Flight>, asked: set<Message>)

  datatype Event =
    | Start(message: Message)                // a node sends a ping of its own
    | Deliver(flight: nat, node: uint8)      // a node receives a ping

  function Receivers(nodes: set<uint8>, destination: uint8): set<uint8> {
    if destination == BROADCAST then nodes else nodes * {destination}
  }

  function Launched(n: Network, m: Message): Flight {
    Flight(m, Receivers(n.nodes, m.destination))
  }

  predicate Possible(n: Network, e: Event) {
    match e
    case Start(m) => m.source in n.nodes && m.origin == m.source
    case Deliver(i, node) => i < |n.air| && node in n.air[i].receivers
  }

  /** The reply of `node` to a ping. */
  function ReplyTo(m: Message, node: uint8): Message {
    Message(node, m.source, m.origin, m.stampOut, m.trailer)
  }

  function Next(n: Network, e: Event): Network
    requires Possible(n, e)
  {
    match e
    case Start(m) => n.(air := n.air + [Launched(n, m)], asked := n.asked + {m})
    case Deliver(i, node) =>
      var f := n.air[i];
      var air := n.air[i := f.(receivers := f.receivers - {node})];
      if f.message.origin == node then n.(air := air)
      else n.(air := air + [Launched(n, ReplyTo(f.message, node))])
  }

  /** The ping in a frame. */
  function MessageOf(f: Frame): Message
    requires PACKET_SIZE <= Length(f) <= PAYLOAD_SIZE
  {
    Message(Source(f), Destination(f), Origin(f), StampOut(f), Trailer(f))
  }

  /** Sending puts the sender's identity in and leaves the rest of the ping as it is. */
  lemma {:induction false} SentMessage(identity: uint8, f: Frame, noise: seq<uint8>)
    requires PACKET_SIZE <= Length(f) <= PAYLOAD_SIZE && |noise| == PAYLOAD_SIZE
    ensures Length(Built(identity, f, noise)) == Length(f)
    ensures MessageOf(Built(identity, f, noise)) == MessageOf(f).(source := identity)
  {
    SentIsReceived(identity, None, f, noise, Zeros(IVT_SIZE));
    var g := Built(identity, f, noise);
    var n := Length(f);
    assert Payload(g)[..n] == Payload(f)[..n];
    assert StampOut(g) == Payload(g)[..n][..STAMP] && StampOut(f) == Payload(f)[..n][..STAMP];
    assert Origin(g) == Payload(g)[..n][2 * STAMP] && Origin(f) == Payload(f)[..n][2 * STAMP];
    assert Trailer(g) == Payload(g)[..n][PACKET_SIZE..] && Trailer(f) == Payload(f)[..n][PACKET_SIZE..];
  }

  /** A ping of a node's own, when it is sent, starts in the network. */
  lemma {:induction false} AskedIsStart(n: Network, identity: uint8, f: Frame, noise: seq<uint8>)
    requires PACKET_SIZE <= Length(f) <= PAYLOAD_SIZE && |noise| == PAYLOAD_SIZE && identity in n.nodes
    requires Origin(f) == identity
    ensures Possible(n, Start(MessageOf(Built(identity, f, noise))))
  {
    SentMessage(identity, f, noise);
  }

  /** The answer of a node, when it is sent, is the reply of the network: same origin, stamp and trailing
      bytes, back to the source. */
  lemma {:induction false} AnswerIsReply(node: uint8, f: Frame, now: Time, reply: Frame, noise: seq<uint8>)
    requires Answers(reply, f, now) && |noise| == PAYLOAD_SIZE
    ensures Length(Built(node, reply, noise)) == Length(f)
    ensures MessageOf(Built(node, reply, noise)) == ReplyTo(MessageOf(f), node)
  {
    SentMessage(node, reply, noise);
    hide Built;
  }

  /** The receivers of a ping are the nodes whose dispatcher takes it. */
  lemma {:induction false} ReceiversAreAddressed(nodes: set<uint8>, f: Frame, node: uint8)
    requires BROADCAST !in nodes && Source(f) in nodes && node in nodes
    ensures node in Receivers(nodes, Destination(f)) <==> Addressed(node, f)
  {
  }

  /** A delivery takes the node from those that may still receive the ping. If the ping is not the node's own, it
      adds exactly one ping, from the node to the source, with origin, stamp and trailing bytes unchanged and the
      source as its only receiver; if it is, nothing. */
  lemma {:induction false} DeliveryIs(n: Network, i: nat, node: uint8)
    requires Possible(n, Deliver(i, node)) && 255 !in n.nodes && n.air[i].message.source in n.nodes
    ensures var t, m := Next(n, Deliver(i, node)), n.air[i].message;
            && t.nodes == n.nodes && t.asked == n.asked
            && t.air[..|n.air|] == n.air[i := Flight(m, n.air[i].receivers - {node})]
            && t.air[|n.air|..] == if m.origin == node then []
                 else [Flight(Message(node, m.source, m.origin, m.stampOut, m.trailer), {m.source})]
  {
    var m := n.air[i].message;
    assert n.nodes * {m.source} == {m.source};
  }

  /** A start puts the ping on the air for the nodes it is for, all if it is a broadcast. */
  lemma {:induction false} StartIs(n: Network, m: Message)
    requires m.source in n.nodes && m.origin == m.source
    ensures Possible(n, Start(m))
    ensures var t := Next(n, Start(m));
            && t.nodes == n.nodes && t.asked == n.asked + {m} && |t.air| == |n.air| + 1 && t.air[..|n.air|] == n.air
            && t.air[|n.air|].message == m
            && forall node :: node in t.air[|n.air|].receivers <==> node in n.nodes && (m.destination == 255 || m.destination == node)
  {
  }

  // ----- Traffic dies out -----

  /** A ping on its way out, or on its way back to its origin. */
  predicate Sound(n: Network, f: Flight) {
    var m := f.message;
    && m.source in n.nodes && m.origin in n.nodes
    && (m.source == m.origin || m.destination == m.origin)
    && f.receivers <= Receivers(n.nodes, m.destination)
    && exists q :: q in n.asked && q.origin == m.origin && q.stampOut == m.stampOut && q.trailer == m.trailer
  }

  ghost predicate NetworkInv(n: Network) {
    BROADCAST !in n.nodes && forall i :: 0 <= i < |n.air| ==> Sound(n, n.air[i])
  }

  lemma {:induction false} LaunchIsSound(n: Network, m: Message, q: Message)
    requires m.source in n.nodes && m.origin in n.nodes && (m.source == m.origin || m.destination == m.origin)
    requires q in n.asked && q.origin == m.origin && q.stampOut == m.stampOut && q.trailer == m.trailer
    ensures Sound(n, Launched(n, m))
  {
  }

  lemma {:induction false} NetworkKept(n: Network, e: Event)
    requires NetworkInv(n) && Possible(n, e)
    ensures NetworkInv(Next(n, e))
  {
    var t := Next(n, e);
    match e
    case Start(m) =>
      LaunchIsSound(t, m, m);
      forall i | 0 <= i < |n.air| ensures Sound(t, n.air[i]) { StaysSound(n, t, n.air[i]); }
    case Deliver(i, node) =>
      var f := n.air[i];
      assert Sound(n, f);
      var q :| q in n.asked && q.origin == f.message.origin && q.stampOut == f.message.stampOut && q.trailer == f.message.trailer;
      if f.message.origin != node { LaunchIsSound(t, ReplyTo(f.message, node), q); }
      forall k | 0 <= k < |n.air| ensures Sound(t, t.air[k]) {
        StaysSound(n, t, n.air[k]);
        StaysSound(n, t, n.air[i]);
      }
  }

  lemma {:induction false} StaysSound(n: Network, t: Network, f: Flight)
    requires Sound(n, f) && t.nodes == n.nodes && n.asked <= t.asked
    ensures Sound(t, f)
    ensures forall rest :: rest <= f.receivers ==> Sound(t, f.(receivers := rest))
  {
  }

  /** Two for every delivery that may be answered, one for every other. */
  function Weight(f: Flight): nat {
    (if f.message.destination == f.message.origin then 1 else 2) * |f.receivers|
  }

  function Potential(air: seq<Flight>): nat {
    if air == [] then 0 else Potential(air[..|air| - 1]) + Weight(air[|air| - 1])
  }

  lemma {:induction false} PotentialOfUpdate(air: seq<Flight>, i: nat, f: Flight)
    requires i < |air|
    ensures Potential(air[i := f]) == Potential(air) - Weight(air[i]) + Weight(f)
  {
    var n := |air| - 1;
    if i < n {
      PotentialOfUpdate(air[..n], i, f);
      assert air[i := f][..n] == air[..n][i := f];
    } else {
      assert air[i := f][..n] == air[..n];
    }
  }

  lemma {:induction false} PotentialOfAppend(air: seq<Flight>, f: Flight)
    ensures Potential(air + [f]) == Potential(air) + Weight(f)
  {
    assert (air + [f])[..|air|] == air;
  }

  /** Each delivery causes at most one reply, none if the ping is on its way back, and lowers the potential. */
  lemma {:induction false} DeliveryLowersPotential(n: Network, i: nat, node: uint8)
    requires NetworkInv(n) && Possible(n, Deliver(i, node))
    ensures var t := Next(n, Deliver(i, node));
            && |n.air| <= |t.air| <= |n.air| + 1
            && (n.air[i].message.destination == n.air[i].message.origin ==> |t.air| == |n.air|)
            && Potential(t.air) < Potential(n.air)
  {
    var f := n.air[i];
    assert Sound(n, f);
    var air := n.air[i := f.(receivers := f.receivers - {node})];
    PotentialOfUpdate(n.air, i, f.(receivers := f.receivers - {node}));
    if f.message.origin != node {
      var reply := Launched(n, ReplyTo(f.message, node));
      PotentialOfAppend(air, reply);
      assert n.nodes * {f.message.source} == {f.message.source};
      assert |reply.receivers| == 1;
    }
  }

  // ----- Runs -----

  ghost predicate IsRun(n: Network, events: seq<Event>)
    decreases |events|
  {
    events != [] ==> Possible(n, events[0]) && IsRun(Next(n, events[0]), events[1..])
  }

  function Deliveries(events: seq<Event>): nat {
    if events == [] then 0 else Deliveries(events[1..]) + (if events[0].Deliver? then 1 else 0)
  }

  function Starts(events: seq<Event>): nat {
    if events == [] then 0 else Starts(events[1..]) + (if events[0].Start? then 1 else 0)
  }

  lemma {:induction false} LaunchWeight(n: Network, m: Message)
    ensures Weight(Launched(n, m)) <= 2 * |n.nodes|
  {
    SubsetSize(Receivers(n.nodes, m.destination), n.nodes);
  }

  lemma {:induction false} SubsetSize<T>(a: set<T>, b: set<T>)
    requires a <= b
    ensures |a| <= |b|
  {
    assert b == a + (b - a);
  }

  /** Ping traffic dies out: in every run the deliveries are bounded by what was on the air and two for
      every node and every ping started. Without new pings every run is finite. */
  lemma {:induction false} TrafficIsBounded(n: Network, events: seq<Event>)
    requires NetworkInv(n) && IsRun(n, events)
    ensures Deliveries(events) <= Potential(n.air) + 2 * |n.nodes| * Starts(events)
    decreases |events|
  {
    if events != [] {
      var e, rest := events[0], events[1..];
      NetworkKept(n, e);
      TrafficIsBounded(Next(n, e), rest);
      OneEvent(n, e);
      StartsAdd(2 * |n.nodes|, e, rest);
      assert events == [e] + rest;
      hide Next; hide Potential; hide NetworkInv; hide Starts;
    }
  }

  lemma {:induction false} StartsAdd(k: nat, e: Event, rest: seq<Event>)
    ensures k * Starts([e] + rest) == k * Starts(rest) + (if e.Start? then k else 0)
  {
    assert ([e] + rest)[1..] == rest;
  }

  lemma {:induction false} OneEvent(n: Network, e: Event)
    requires NetworkInv(n) && Possible(n, e)
    ensures var t := Next(n, e);
            && t.nodes == n.nodes
            && (e.Deliver? ==> Potential(t.air) < Potential(n.air))
            && (e.Start? ==> Potential(t.air) <= Potential(n.air) + 2 * |n.nodes|)
  {
    match e
    case Start(m) => PotentialOfAppend(n.air, Launched(n, m)); LaunchWeight(n, m);
    case Deliver(i, node) => DeliveryLowersPotential(n, i, node);
  }

  ghost function After(n: Network, events: seq<Event>): Network
    requires IsRun(n, events)
    decreases |events|
  {
    if events == [] then n else After(Next(n, events[0]), events[1..])
  }

  /** At every moment of every run that begins with nothing on the air: a ping on the air is on its way from
      or to its origin, and carries the origin, the time stamp and the trailing bytes of a ping that its
      origin has sent. */
  lemma {:induction false} AnswersCarryWhatWasAsked(n: Network, events: seq<Event>)
    requires NetworkInv(n) && IsRun(n, events)
    ensures NetworkInv(After(n, events))
    decreases |events|
  {
    if events != [] {
      NetworkKept(n, events[0]);
      AnswersCarryWhatWasAsked(Next(n, events[0]), events[1..]);
    }
  }
}
