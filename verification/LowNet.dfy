/** The LowNet frame layer: building, encrypting, receiving and dispatching frames, with the
    packed layouts of the plain (212 bytes) and the secure (228 bytes) frame. */
module LowNet {
  import opened MachineTypes
  import opened NetTime
  import Crc
  import Crypt

  const FRAME_SIZE := 212
  const COVERED := 208       // what the checksum covers
  const PAYLOAD := 8         // offset of the payload
  const PAYLOAD_SIZE := 200
  const IVT_SIZE := 16
  const KEY_SIZE := 32
  const MAX_PROTOCOLS := 10
  const QUEUE_SIZE := 16
  const BROADCAST: uint8 := 0xFF
  const PLAIN_MAGIC: seq<uint8> := [0x10, 0x4e]
  const CIPHER_MAGIC: seq<uint8> := [0x20, 0x4e]

  type Frame = s: seq<uint8> | |s| == FRAME_SIZE witness Zeros(FRAME_SIZE)
  type SecureFrame = s: seq<uint8> | |s| == Crypt.SECURE witness Zeros(Crypt.SECURE)
  type Handler = nat

  function Source(f: Frame): uint8 { f[2] }
  function Destination(f: Frame): uint8 { f[3] }
  function Protocol(f: Frame): uint8 { f[4] }
  function Length(f: Frame): uint8 { f[5] }
  function Payload(f: Frame): (p: seq<uint8>)
    ensures |p| == PAYLOAD_SIZE
  {
    f[PAYLOAD..COVERED]
  }

  /** The payload is bytes 8 to 207 of the frame. */
  lemma {:induction false} PayloadSlice(f: Frame, i: nat, k: nat)
    requires i <= k <= PAYLOAD_SIZE
    ensures Payload(f)[i..k] == f[8 + i..8 + k]
  {
    var a, b := Payload(f)[i..k], f[8 + i..8 + k];
    forall x | 0 <= x < k - i ensures a[x] == b[x] {
      assert a[x] == Payload(f)[i + x] == f[8 + (i + x)];
    }
  }

  // ----- Sending -----

  /** The part of an outgoing frame that the checksum covers. */
  function Body(identity: uint8, frame: Frame, noise: seq<uint8>): (body: seq<uint8>)
    requires Length(frame) <= PAYLOAD_SIZE && |noise| == PAYLOAD_SIZE
    ensures |body| == COVERED
  {
    PLAIN_MAGIC + [identity, Destination(frame), Protocol(frame), Length(frame), 0, 0]
    + Payload(frame)[..Length(frame)] + noise[Length(frame)..]
  }

  function Built(identity: uint8, frame: Frame, noise: seq<uint8>): Frame
    requires Length(frame) <= PAYLOAD_SIZE && |noise| == PAYLOAD_SIZE
  {
    Body(identity, frame, noise) + ToLe(Crc.Checksum(Body(identity, frame, noise)), 4)
  }

  /** Writing the fields into a zeroed frame gives the body. */
  lemma {:induction false} Assembled(identity: uint8, frame: Frame, noise: seq<uint8>)
    requires Length(frame) <= PAYLOAD_SIZE && |noise| == PAYLOAD_SIZE
    ensures var length := Length(frame);
            var s := Crypt.Put(Zeros(FRAME_SIZE), 0, PLAIN_MAGIC);
            var t := Crypt.Put(s, 2, [identity, Destination(frame), Protocol(frame), length]);
            var u := Crypt.Put(t, PAYLOAD, Payload(frame)[..length]);
            Crypt.Put(u, PAYLOAD + length, noise[length..])[..COVERED] == Body(identity, frame, noise)
  {
    var length := Length(frame);
    var s := Crypt.Put(Zeros(FRAME_SIZE), 0, PLAIN_MAGIC);
    var fields := [identity, Destination(frame), Protocol(frame), length];
    var t := Crypt.Put(s, 2, fields);
    var u := Crypt.Put(t, PAYLOAD, Payload(frame)[..length]);
    Crypt.PutSlices(Zeros(FRAME_SIZE), 0, PLAIN_MAGIC, 6, PAYLOAD);
    assert s[..2] == PLAIN_MAGIC && s[6..PAYLOAD] == [0, 0];
    Crypt.PutPrefix(s, 2, fields, PAYLOAD);
    assert t[..PAYLOAD] == PLAIN_MAGIC + (fields + [0, 0]);
    assert fields + [0, 0] == [identity, Destination(frame), Protocol(frame), length, 0, 0];
    assert t[..PAYLOAD] == PLAIN_MAGIC + [identity, Destination(frame), Protocol(frame), length, 0, 0];
    assert u[..PAYLOAD + length] == t[..PAYLOAD] + Payload(frame)[..length];
  }

  /** A plain frame laid out as a secure frame. */
  function Laid(frame: Frame, ivt: seq<uint8>): SecureFrame
    requires |ivt| == IVT_SIZE
  {
    CIPHER_MAGIC + frame[2..4] + ivt + frame[4..]
  }

  lemma {:induction false} LaidOut(memory: SecureFrame, frame: Frame, ivt: seq<uint8>)
    requires |ivt| == IVT_SIZE
    ensures var s := Crypt.Put(Crypt.Put(memory, 4, ivt), 0, CIPHER_MAGIC);
            Crypt.Put(Crypt.Put(s, 2, frame[2..4]), Crypt.CLEAR, frame[4..]) == Laid(frame, ivt)
  {
    var s := Crypt.Put(Crypt.Put(memory, 4, ivt), 0, CIPHER_MAGIC);
    Crypt.PutSlices(memory, 4, ivt, 0, 0);
    Crypt.PutSlices(Crypt.Put(memory, 4, ivt), 0, CIPHER_MAGIC, 4, Crypt.CLEAR);
    assert s[..2] == CIPHER_MAGIC;
    Crypt.PutPrefix(s, 2, frame[2..4], Crypt.CLEAR);
    assert Crypt.Put(s, 2, frame[2..4])[..Crypt.CLEAR] == CIPHER_MAGIC + frame[2..4] + ivt;
  }

  /** What goes on the air, if anything: lengths above the payload size are discarded. */
  function Transmission(identity: uint8, cipher: Option<Crypt.BlockCipher>, frame: Frame,
                        noise: seq<uint8>, ivt: seq<uint8>): Option<seq<uint8>>
    requires |noise| == PAYLOAD_SIZE && |ivt| == IVT_SIZE
    requires cipher.Some? ==> Crypt.Invertible(cipher.value)
  {
    if Length(frame) > PAYLOAD_SIZE then None
    else if cipher.None? then Some(Built(identity, frame, noise))
    else Some(Crypt.EncryptFrame(cipher.value, Laid(Built(identity, frame, noise), ivt)))
  }

  // ----- Receiving -----

  /** A decrypted secure frame turned back into a plain one. */
  function Restored(plain: SecureFrame): Frame {
    PLAIN_MAGIC + plain[2..4] + plain[Crypt.CLEAR..]
  }

  /** The frame that reaches the dispatcher; the size on the air must fit the receiver's mode. */
  function Received(cipher: Option<Crypt.BlockCipher>, data: seq<uint8>): Option<Frame>
    requires cipher.Some? ==> Crypt.Invertible(cipher.value)
  {
    if cipher.None? && |data| == FRAME_SIZE then Some(data)
    else if cipher.Some? && |data| == Crypt.SECURE then Some(Restored(Crypt.DecryptFrame(cipher.value, data)))
    else None
  }

  lemma {:induction false} RestoredInPlace(memory: Frame, plain: SecureFrame)
    ensures var s := Crypt.Put(Crypt.Put(memory, 0, plain[..4]), 0, PLAIN_MAGIC);
            Crypt.Put(s, 4, plain[Crypt.CLEAR..]) == Restored(plain)
  {
    var s := Crypt.Put(Crypt.Put(memory, 0, plain[..4]), 0, PLAIN_MAGIC);
    Crypt.PutSlices(memory, 0, plain[..4], 0, 0);
    Crypt.PutSlices(Crypt.Put(memory, 0, plain[..4]), 0, PLAIN_MAGIC, 2, 4);
    assert s[2..4] == plain[..4][2..4];
    assert s[..4] == PLAIN_MAGIC + plain[2..4];
  }

  predicate Intact(f: Frame) {
    f[..2] == PLAIN_MAGIC && Crc.Checksum(f[..COVERED]) == FromLe(f[COVERED..])
  }

  predicate Addressed(identity: uint8, f: Frame) {
    Source(f) != BROADCAST && (Destination(f) == identity || Destination(f) == BROADCAST)
  }

  datatype Registration = Registration(protocol: uint8, handler: Handler)

  /** The handler of the first registration for a protocol. */
  function Lookup(table: seq<Registration>, protocol: uint8): Option<Handler> {
    if table == [] then None
    else if table[0].protocol == protocol then Some(table[0].handler)
    else Lookup(table[1..], protocol)
  }

  lemma {:induction false} LookupIsFirst(table: seq<Registration>, protocol: uint8)
    ensures Lookup(table, protocol).None? <==> forall r :: r in table ==> r.protocol != protocol
    ensures forall i :: 0 <= i < |table| && table[i].protocol == protocol
              && (forall j :: 0 <= j < i ==> table[j].protocol != protocol)
              ==> Lookup(table, protocol) == Some(table[i].handler)
  {
    if table != [] {
      LookupIsFirst(table[1..], protocol);
      forall i | 0 < i < |table| && table[i].protocol == protocol
          && (forall j :: 0 <= j < i ==> table[j].protocol != protocol)
        ensures Lookup(table, protocol) == Some(table[i].handler)
      {
        assert table[0].protocol != protocol;
        assert table[1..][i - 1] == table[i];
        assert forall j :: 0 <= j < i - 1 ==> table[1..][j] == table[j + 1];
      }
    }
  }

  /** The handler a frame is given to, if any. The two top bits of the protocol byte are flags. */
  function Dispatched(identity: uint8, table: seq<Registration>, f: Frame): Option<Handler> {
    if Intact(f) && Addressed(identity, f) then Lookup(table, Protocol(f) % 64) else None
  }

  // ----- Layouts -----

  /** A frame on the air, byte for byte: magic, source, destination, protocol, length, padding, payload, noise and
      checksum, lowest byte first. */
  lemma {:induction false} BuiltIs(identity: uint8, frame: Frame, noise: seq<uint8>)
    requires frame[5] <= 200 && |noise| == 200
    ensures var f := Built(identity, frame, noise);
            && f[..8] == [0x10, 0x4e, identity, frame[3], frame[4], frame[5], 0, 0]
            && (forall i :: 0 <= i < 200 ==> f[8 + i] == if i < frame[5] then frame[8 + i] else noise[i])
            && Word(f[208], f[209], f[210], f[211]) == Crc.Checksum(f[..208])
  {
    var f := Built(identity, frame, noise);
    var body := Body(identity, frame, noise);
    var crc := Crc.Checksum(body);
    assert f[..208] == body && f[208..] == ToLe(crc, 4);
    Crc.Powers();
    LeRoundTrip(crc, 4);
    FromLe4(f[208..]);
    hide FromLe; hide ToLe; hide Crc.Checksum;
  }

  /** A secure frame before encryption: magic, source and destination, the vector, and the rest of the frame. */
  lemma {:induction false} LaidIs(frame: Frame, ivt: seq<uint8>)
    requires |ivt| == 16
    ensures var g := Laid(frame, ivt);
            g[..4] == [0x20, 0x4e, frame[2], frame[3]] && g[4..20] == ivt && g[20..228] == frame[4..212]
  {
  }

  lemma {:induction false} RestoredIs(plain: SecureFrame)
    ensures var f := Restored(plain);
            f[..4] == [0x10, 0x4e, plain[2], plain[3]] && f[4..212] == plain[20..228]
  {
  }

  /** What is sent and what is received, by size: 212 bytes in plain mode, 228 with a key; nothing is sent for a
      length above 200. */
  lemma {:induction false} SizesOnAir(identity: uint8, cipher: Option<Crypt.BlockCipher>, frame: Frame,
                                      noise: seq<uint8>, ivt: seq<uint8>, data: seq<uint8>)
    requires |noise| == 200 && |ivt| == 16
    requires cipher.Some? ==> Crypt.Invertible(cipher.value)
    ensures var sent := Transmission(identity, cipher, frame, noise, ivt);
            (sent.Some? <==> frame[5] <= 200) && (sent.Some? ==> |sent.value| == if cipher.None? then 212 else 228)
    ensures var received := Received(cipher, data);
            && (received.Some? <==> |data| == if cipher.None? then 212 else 228)
            && (received.Some? && cipher.None? ==> received.value == data)
            && (received.Some? && cipher.Some? ==>
                  && received.value[..4] == [0x10, 0x4e, data[2], data[3]]
                  && received.value[4..212] == Crypt.DecryptFrame(cipher.value, data)[20..228])
  {
  }

  /** What is on the air: the frame itself in plain mode; with a key, header and vector in the clear, and behind
      them what decrypts to the rest of the frame. */
  lemma {:induction false} SentIs(identity: uint8, cipher: Option<Crypt.BlockCipher>, frame: Frame,
                                  noise: seq<uint8>, ivt: seq<uint8>)
    requires |noise| == 200 && |ivt| == 16 && frame[5] <= 200
    requires cipher.Some? ==> Crypt.Invertible(cipher.value)
    ensures var sent, f := Transmission(identity, cipher, frame, noise, ivt).value, Built(identity, frame, noise);
            if cipher.None? then sent == f
            else |sent| == 228 && sent[..4] == [0x20, 0x4e, identity, frame[3]] && sent[4..20] == ivt
                 && Crypt.DecryptFrame(cipher.value, sent)[20..228] == f[4..212]
  {
    if cipher.Some? {
      var f := Built(identity, frame, noise);
      BuiltIs(identity, frame, noise);
      assert f[..8][2] == identity && f[..8][3] == frame[3];
      hide Built;
      LaidIs(f, ivt);
      var laid := Laid(f, ivt);
      Crypt.FrameRoundTrip(cipher.value, laid);
      hide Laid; hide Crypt.EncryptFrame; hide Crypt.DecryptFrame;
      var sent := Crypt.EncryptFrame(cipher.value, laid);
      assert sent[..4] == sent[..20][..4] == laid[..20][..4] == laid[..4];
      assert sent[4..20] == sent[..20][4..20] == laid[..20][4..20] == laid[4..20];
    }
  }

  /** The tests of the dispatcher, on the bytes of a frame. */
  lemma {:induction false} DispatchedExactly(identity: uint8, table: seq<Registration>, f: Frame, handler: Handler)
    ensures Dispatched(identity, table, f) == Some(handler) <==>
      (f[0] == 0x10 && f[1] == 0x4e && Word(f[208], f[209], f[210], f[211]) == Crc.Checksum(f[..208])
       && f[2] != 255 && (f[3] == identity || f[3] == 255) && Lookup(table, f[4] % 64) == Some(handler))
  {
    FromLe4(f[208..]);
    hide FromLe; hide Crc.Checksum;
    assert f[..2] == [f[0], f[1]];
  }

  // ----- Round trip -----

  lemma {:induction false} LeRoundTrip(value: nat, n: nat)
    requires value < Pow2(8 * n)
    ensures FromLe(ToLe(value, n)) == value
  {
    if n > 0 {
      assert Pow2(8) == 0x100;
      Pow2Add(8, 8 * (n - 1));
      LeRoundTrip(value / 0x100, n - 1);
    }
  }

  lemma {:induction false} BuiltIsIntact(identity: uint8, frame: Frame, noise: seq<uint8>)
    requires Length(frame) <= PAYLOAD_SIZE && |noise| == PAYLOAD_SIZE
    ensures Intact(Built(identity, frame, noise))
  {
    var body := Body(identity, frame, noise);
    var f := Built(identity, frame, noise);
    assert f[..COVERED] == body && f[COVERED..] == ToLe(Crc.Checksum(body), 4);
    assert f[..2] == PLAIN_MAGIC;
    Crc.Powers();
    LeRoundTrip(Crc.Checksum(body), 4);
  }

  /** A frame of a possible length reaches a peer in the same mode, with the same key, byte for
      byte as it was built: in particular with the payload that was sent. */
  lemma {:induction false} SentIsReceived(identity: uint8, cipher: Option<Crypt.BlockCipher>, frame: Frame,
                                          noise: seq<uint8>, ivt: seq<uint8>)
    requires Length(frame) <= PAYLOAD_SIZE && |noise| == PAYLOAD_SIZE && |ivt| == IVT_SIZE
    requires cipher.Some? ==> Crypt.Invertible(cipher.value)
    ensures var f := Built(identity, frame, noise);
            Received(cipher, Transmission(identity, cipher, frame, noise, ivt).value) == Some(f)
            && Source(f) == identity && Destination(f) == Destination(frame) && Protocol(f) == Protocol(frame)
            && Length(f) == Length(frame)
            && Payload(f)[..Length(frame)] == Payload(frame)[..Length(frame)]
  {
    var f := Built(identity, frame, noise);
    if cipher.Some? {
      var laid := Laid(f, ivt);
      Crypt.FrameRoundTrip(cipher.value, laid);
      assert f[..2] == PLAIN_MAGIC;
      assert laid[2..4] == f[2..4] && laid[Crypt.CLEAR..] == f[4..];
      assert f == f[..2] + f[2..4] + f[4..];
    }
  }

  /** Nothing is delivered between a node that encrypts and one that does not. */
  lemma {:induction false} ModesDoNotMix(identity: uint8, sender: Option<Crypt.BlockCipher>, receiver: Option<Crypt.BlockCipher>,
                                         frame: Frame, noise: seq<uint8>, ivt: seq<uint8>)
    requires |noise| == PAYLOAD_SIZE && |ivt| == IVT_SIZE && sender.Some? != receiver.Some?
    requires sender.Some? ==> Crypt.Invertible(sender.value)
    requires receiver.Some? ==> Crypt.Invertible(receiver.value)
    ensures var sent := Transmission(identity, sender, frame, noise, ivt);
            sent.Some? ==> Received(receiver, sent.value).None?
  {
    if Length(frame) <= PAYLOAD_SIZE && sender.None? {
      assert |Built(identity, frame, noise)| == FRAME_SIZE;
    }
  }

  /** End to end, in one mode: the handler of the peer runs, on the frame as built, exactly when the
      length was possible, neither end is misaddressed and the peer registered the protocol. */
  lemma {:induction false} DeliveredExactly(me: uint8, peer: uint8, cipher: Option<Crypt.BlockCipher>, table: seq<Registration>,
                                            frame: Frame, noise: seq<uint8>, ivt: seq<uint8>, handler: Handler)
    requires |noise| == PAYLOAD_SIZE && |ivt| == IVT_SIZE
    requires cipher.Some? ==> Crypt.Invertible(cipher.value)
    ensures var sent := Transmission(me, cipher, frame, noise, ivt);
            (sent.Some? && Received(cipher, sent.value).Some?
              && Dispatched(peer, table, Received(cipher, sent.value).value) == Some(handler))
            <==> (Length(frame) <= PAYLOAD_SIZE && me != BROADCAST
              && (Destination(frame) == peer || Destination(frame) == BROADCAST)
              && Lookup(table, Protocol(frame) % 64) == Some(handler))
  {
    if Length(frame) <= PAYLOAD_SIZE {
      SentIsReceived(me, cipher, frame, noise, ivt);
      BuiltIsIntact(me, frame, noise);
    }
    hide Built; hide Laid; hide Intact; hide Received; hide Lookup; hide Crypt.EncryptFrame; hide Payload;
  }

  /** The bits of a frame under the checksum, in processing order. */
  function CoveredBits(f: Frame): seq<bool> {
    Crc.BitsOf(f[..COVERED])
  }

  lemma {:induction false} SameParts(a: Frame, b: Frame)
    requires a[..COVERED] == b[..COVERED] && a[COVERED..] == b[COVERED..]
    ensures a == b
  {
    assert a == a[..COVERED] + a[COVERED..] && b == b[..COVERED] + b[COVERED..];
  }

  /** A frame whose bytes under the checksum are damaged passes the tests exactly if its magic bytes are in
      place and the damage is a multiple of G. */
  lemma {:induction false} DamagePassesExactly(sent: Frame, heard: Frame)
    requires Intact(sent) && sent[COVERED..] == heard[COVERED..]
    ensures Intact(heard) <==>
      heard[..2] == PLAIN_MAGIC && Crc.Multiple(Crc.Difference(CoveredBits(sent), CoveredBits(heard)), Crc.POLYNOMIAL)
  {
    Crc.EqualExactlyOnMultiples(Crc.INITIAL, CoveredBits(sent), CoveredBits(heard));
    hide Crc.Register; hide Crc.Multiple; hide Crc.Difference;
  }

  /** A frame damaged within any 24 consecutive bits under the checksum reaches no handler. */
  lemma {:induction false} DamageIsDropped(sent: Frame, heard: Frame, first: nat, identity: uint8, table: seq<Registration>)
    requires Intact(sent) && sent != heard && sent[COVERED..] == heard[COVERED..]
    requires Crc.DifferOnlyWithin(CoveredBits(sent), CoveredBits(heard), first, 24)
    ensures Dispatched(identity, table, heard) == None
  {
    if sent[..COVERED] == heard[..COVERED] { SameParts(sent, heard); }
    if CoveredBits(sent) == CoveredBits(heard) { Crc.BitsInjective(sent[..COVERED], heard[..COVERED]); }
    Crc.BurstIsDetected(Crc.INITIAL, CoveredBits(sent), CoveredBits(heard), first);
    hide Crc.Register; hide Crc.DifferOnlyWithin;
  }

  lemma {:induction false} FromLeInjective(a: seq<uint8>, b: seq<uint8>)
    requires |a| == |b| && FromLe(a) == FromLe(b)
    ensures a == b
  {
    if a != [] {
      FromLeInjective(a[1..], b[1..]);
      assert a == [a[0]] + a[1..] && b == [b[0]] + b[1..];
    }
  }

  /** A frame whose checksum field alone is damaged, in whatever way, reaches no handler. */
  lemma {:induction false} ChecksumDamageIsDropped(sent: Frame, heard: Frame, identity: uint8, table: seq<Registration>)
    requires Intact(sent) && sent != heard && sent[..COVERED] == heard[..COVERED]
    ensures Dispatched(identity, table, heard) == None
  {
    if FromLe(sent[COVERED..]) == FromLe(heard[COVERED..]) {
      FromLeInjective(sent[COVERED..], heard[COVERED..]);
      SameParts(sent, heard);
    }
  }

  // ----- The service -----

  class Net {
    var identity: uint8
    var key: Option<seq<uint8>>
    var inbound: seq<Frame>
    var decryptQueue: seq<SecureFrame>
    var protocols: array<Registration>
    var numProtocols: nat
    var syncTime: Time
    var syncStamp: int
    const aes: seq<uint8> -> Crypt.BlockCipher

    ghost predicate Valid()
      reads this
    {
      protocols.Length == MAX_PROTOCOLS && numProtocols <= MAX_PROTOCOLS
      && (key.Some? ==> |key.value| == KEY_SIZE)
      && |inbound| <= QUEUE_SIZE && |decryptQueue| <= QUEUE_SIZE
      && forall k :: Crypt.Invertible(aes(k))
    }

    function Table(): seq<Registration>
      reads this, protocols
      requires numProtocols <= protocols.Length
    {
      protocols[..numProtocols]
    }

    constructor (identity: uint8, aes: seq<uint8> -> Crypt.BlockCipher)
      requires forall k :: Crypt.Invertible(aes(k))
      ensures Valid() && fresh(protocols) && Table() == [] && key == None && this.identity == identity
      ensures inbound == [] && decryptQueue == [] && syncTime == Time(0, 0)
    {
      this.identity, this.aes, key := identity, aes, None;
      inbound, decryptQueue := [], [];
      protocols, numProtocols := new Registration[MAX_PROTOCOLS](_ => Registration(0, 0)), 0;
      syncTime, syncStamp := Time(0, 0), 0;
    }

    method RegisterProtocol(protocol: uint8, handler: Handler) returns (status: int)
      requires Valid()
      modifies this`numProtocols, protocols
      ensures Valid()
      ensures status == if |old(Table())| < 10 then 0 else 1
      ensures Table() == if status == 0 then old(Table()) + [Registration(protocol, handler)] else old(Table())
    {
      if numProtocols >= MAX_PROTOCOLS { return 1; }
      protocols[numProtocols] := Registration(protocol, handler);
      numProtocols := numProtocols + 1;
      return 0;
    }

    method GetHandler(protocol: uint8) returns (handler: Option<Handler>)
      requires Valid()
      ensures handler == Lookup(Table(), protocol)
    {
      for i := 0 to numProtocols
        invariant Lookup(Table(), protocol) == Lookup(Table()[i..], protocol)
      {
        if protocols[i].protocol == protocol { return Some(protocols[i].handler); }
        assert Table()[i..][1..] == Table()[i + 1..];
      }
      return None;
    }

    /** Without a key the mode is plain; a key of a wrong size is refused. */
    method SetKey(key: Option<seq<uint8>>)
      requires Valid()
      modifies this`key
      ensures Valid()
      ensures this.key == if key.Some? && |key.value| != 32 then old(this.key) else key
    {
      if key.None? {
        this.key := None;
      } else if |key.value| == KEY_SIZE {
        this.key := key;
      }
    }

    /** `noise` and `ivt` are the bytes of the random number generator. */
    method Send(frame: Frame, noise: seq<uint8>, ivt: seq<uint8>) returns (wire: Option<seq<uint8>>)
      requires Valid() && |noise| == PAYLOAD_SIZE && |ivt| == IVT_SIZE
      ensures wire == Transmission(identity, if key.None? then None else Some(aes(key.value)), frame, noise, ivt)
    {
      if Length(frame) > PAYLOAD_SIZE { return None; }
      var out := new uint8[FRAME_SIZE](_ => 0);
      assert out[..] == Zeros(FRAME_SIZE);
      Crypt.Write(out, 0, PLAIN_MAGIC);
      Crypt.Write(out, 2, [identity, Destination(frame), Protocol(frame), Length(frame)]);
      Crypt.Write(out, PAYLOAD, Payload(frame)[..Length(frame)]);
      FillWithNoise(out, Length(frame), noise);
      Assembled(identity, frame, noise);
      assert out[..COVERED] == out[..][..COVERED];
      var crc := Crc.Compute(out[..COVERED]);
      Crypt.Write(out, COVERED, ToLe(crc, 4));
      hide Body; hide Crc.Checksum;
      assert out[..] == Built(identity, frame, noise);
      if key.None? { return Some(out[..]); }
      var secure := EncryptSend(out[..], ivt);
      return Some(secure);
    }

    method FillWithNoise(out: array<uint8>, from: nat, noise: seq<uint8>)
      requires out.Length == FRAME_SIZE && from <= PAYLOAD_SIZE && |noise| == PAYLOAD_SIZE
      modifies out
      ensures out[..] == Crypt.Put(old(out[..]), PAYLOAD + from, noise[from..])
    {
      ghost var was := out[..];
      for i := from to PAYLOAD_SIZE
        invariant out[..] == Crypt.Put(was, PAYLOAD + from, noise[from..i])
      {
        ghost var before := out[..];
        Crypt.PutOneMore(was, PAYLOAD + from, noise[from..i], noise[i]);
        assert noise[from..i + 1] == noise[from..i] + [noise[i]];
        hide Crypt.Put;
        out[PAYLOAD + i] := noise[i];
        assert out[..] == before[PAYLOAD + i := noise[i]];
      }
      assert noise[from..PAYLOAD_SIZE] == noise[from..];
    }

    method EncryptSend(frame: Frame, ivt: seq<uint8>) returns (wire: seq<uint8>)
      requires Valid() && key.Some? && |ivt| == IVT_SIZE
      ensures wire == Crypt.EncryptFrame(aes(key.value), Laid(frame, ivt))
    {
      var plain, cipher := new uint8[Crypt.SECURE], new uint8[Crypt.SECURE];
      LaidOut(plain[..], frame, ivt);
      Crypt.Write(plain, 4, ivt);
      Crypt.Write(plain, 0, CIPHER_MAGIC);
      Crypt.Write(plain, 2, [Source(frame), Destination(frame)]);
      assert frame[2..4] == [Source(frame), Destination(frame)];
      Crypt.Write(plain, Crypt.CLEAR, frame[4..]);
      Crypt.Encrypt(aes(key.value), plain, cipher);
      wire := cipher[..];
    }

    /** The radio callback: never blocks, drops what the mode or a full queue cannot take. */
    method InboundHandler(data: seq<uint8>)
      requires Valid()
      modifies this`inbound, this`decryptQueue
      ensures Valid()
      ensures inbound == if |data| == 212 && key.None? && |old(inbound)| < 16
                         then old(inbound) + [data] else old(inbound)
      ensures decryptQueue == if |data| == 228 && key.Some? && |old(decryptQueue)| < 16
                              then old(decryptQueue) + [data] else old(decryptQueue)
    {
      if |data| == FRAME_SIZE && key.None? {
        if |inbound| < QUEUE_SIZE { inbound := inbound + [data]; }
      } else if |data| == Crypt.SECURE && key.Some? {
        if |decryptQueue| < QUEUE_SIZE { decryptQueue := decryptQueue + [data]; }
      }
    }

    /** One turn of the decryption task. It fails exactly if a frame is waiting and the key has been removed:
        the frame is taken from the queue, and there is no key to decrypt it with. */
    method DecryptService() returns (ok: bool)
      requires Valid()
      modifies this`inbound, this`decryptQueue
      ensures Valid()
      ensures ok <==> old(decryptQueue) == [] || key.Some?
      ensures decryptQueue == if old(decryptQueue) == [] then [] else old(decryptQueue)[1..]
      ensures inbound == if ok && old(decryptQueue) != [] && |old(inbound)| < 16
                         then old(inbound) + [Received(Some(aes(key.value)), old(decryptQueue)[0]).value] else old(inbound)
    {
      if decryptQueue == [] { return true; }
      var cipher := decryptQueue[0];
      decryptQueue := decryptQueue[1..];
      if key.None? { return false; }
      var frame := Decrypted(cipher);
      if |inbound| < QUEUE_SIZE { inbound := inbound + [frame]; }
      return true;
    }

    method Decrypted(data: SecureFrame) returns (f: Frame)
      requires Valid() && key.Some?
      ensures Received(Some(aes(key.value)), data) == Some(f)
    {
      var cipher, plain := new uint8[Crypt.SECURE], new uint8[Crypt.SECURE];
      Crypt.Write(cipher, 0, data);
      assert cipher[..] == data;
      Crypt.Decrypt(aes(key.value), cipher, plain);
      var decoded := plain[..];
      hide Crypt.DecryptFrame;
      var frame := new uint8[FRAME_SIZE];
      RestoredInPlace(frame[..], decoded);
      Crypt.Write(frame, 0, decoded[..4]);
      Crypt.Write(frame, 0, PLAIN_MAGIC);
      Crypt.Write(frame, 4, decoded[Crypt.CLEAR..]);
      f := frame[..];
    }

    /** One turn of the dispatch loop: the handler to run on the oldest frame, if any. */
    method ServiceMain() returns (call: Option<Handler>)
      requires Valid()
      modifies this`inbound
      ensures Valid()
      ensures inbound == if old(inbound) == [] then [] else old(inbound)[1..]
      ensures call == if old(inbound) == [] then None else Dispatched(identity, Table(), old(inbound)[0])
    {
      if inbound == [] { return None; }
      var frame := inbound[0];
      inbound := inbound[1..];
      if frame[..2] != PLAIN_MAGIC { return None; }
      var crc := Crc.Compute(frame[..COVERED]);
      if crc != FromLe(frame[COVERED..]) { return None; }
      if Source(frame) == BROADCAST { return None; }
      if Destination(frame) != identity && Destination(frame) != BROADCAST { return None; }
      call := GetHandler(Protocol(frame) % 64);
    }

    /** `timer` is the reading of the microsecond timer. */
    method SetTime(time: Time, timer: nat)
      modifies this`syncTime, this`syncStamp
      ensures syncTime == time && syncStamp == timer / 1000
    {
      syncTime, syncStamp := time, timer / 1000;
    }

    method GetTime(timer: nat) returns (time: Time)
      requires syncStamp <= timer / 1000
      ensures time == Report(syncTime, syncStamp, timer / 1000)
    {
      if syncTime.seconds == 0 { return Time(0, 0); }
      var delta := (timer / 1000 - syncStamp) + (syncTime.parts * 1000) / 256;
      time := Time((syncTime.seconds + (delta / 1000) % WRAP32) % WRAP32, ((delta % 1000) * 256) / 1000 % 0x100);
    }
  }
}
