/** Signed commands: a command frame, two signature frames that carry the halves of its signature in either
    order, and what is executed when they fit. */
module Command {
  import opened MachineTypes
  import opened NetTime
  import opened LowNet
  import Crypt

  // ----- Frames -----

  const HASH_SIZE := 32
  const HALF_SIZE := 128
  const SIGNATURE_SIZE := 256
  const CMD_HEADER_SIZE := 12

  datatype FrameType = Unsigned | Signed | Sig1 | Sig2

  /** The two top bits of the protocol byte. */
  function TypeOf(f: Frame): FrameType {
    var bits := Protocol(f) / 64;
    if bits == 0 then Unsigned else if bits == 1 then Signed else if bits == 2 then Sig1 else Sig2
  }

  function Sequence(f: Frame): nat { FromLe(Payload(f)[..8]) }
  function Kind(f: Frame): uint8 { Payload(f)[8] }
  function Contents(f: Frame): seq<uint8> { Payload(f)[CMD_HEADER_SIZE..] }

  function HashKey(f: Frame): seq<uint8> { Payload(f)[..HASH_SIZE] }
  function HashMsg(f: Frame): seq<uint8> { Payload(f)[HASH_SIZE..2 * HASH_SIZE] }
  function Half(f: Frame): (h: seq<uint8>)
    ensures |h| == HALF_SIZE
  {
    Payload(f)[2 * HASH_SIZE..2 * HASH_SIZE + HALF_SIZE]
  }

  // ----- Hash and signature -----

  /** The hash function and the public RSA operation, which may fail, and the hash of the key in use. */
  datatype Keys = Keys(hash: seq<uint8> -> Option<seq<uint8>>, rsa: seq<uint8> -> Option<seq<uint8>>, keyHash: seq<uint8>)

  /** What a genuine signature of `hash` turns into. */
  function Expected(hash: seq<uint8>): seq<uint8> {
    Zeros(220) + [1, 1, 1, 1] + hash
  }

  predicate Genuine(keys: Keys, signature: seq<uint8>, hash: seq<uint8>) {
    keys.rsa(signature) == Some(Expected(hash))
  }

  /** What verification compares. A failure of the RSA operation is not looked at: the buffer for its result
      then holds what was in it before. */
  predicate Approves(keys: Keys, signature: seq<uint8>, hash: seq<uint8>, memory: seq<uint8>) {
    (match keys.rsa(signature) case Some(plain) => plain case None => memory) == Expected(hash)
  }

  /** Approved are the genuine signatures, and those on which RSA fails while the buffer happens to hold what
      a genuine one turns into. */
  lemma {:induction false} ApprovedExactly(keys: Keys, signature: seq<uint8>, hash: seq<uint8>, memory: seq<uint8>)
    ensures Approves(keys, signature, hash, memory)
       <==> Genuine(keys, signature, hash) || (keys.rsa(signature).None? && memory == Expected(hash))
  {
  }

  // ----- Layouts -----

  /** The type of a frame is in the two top bits of byte 4. */
  lemma {:induction false} FrameTypes(f: Frame)
    ensures TypeOf(f) == Unsigned <==> f[4] < 64
    ensures TypeOf(f) == Signed <==> 64 <= f[4] < 128
    ensures TypeOf(f) == Sig1 <==> 128 <= f[4] < 192
    ensures TypeOf(f) == Sig2 <==> 192 <= f[4]
  {
  }

  /** A command: eight bytes of number, the lowest first, one of type, three that are not used, and contents. */
  lemma {:induction false} CommandFields(f: Frame)
    ensures Sequence(f) ==
      Word(f[8], f[9], f[10], f[11]) + 0x1_0000_0000 * Word(f[12], f[13], f[14], f[15])
    ensures Kind(f) == f[16] && Contents(f) == f[20..208]
  {
    FromLe8(Payload(f)[..8]);
    PayloadSlice(f, 0, 8); PayloadSlice(f, 12, 200);
    hide FromLe; hide Word;
  }

  /** A signature frame: the hash of the key, the hash of the command, and one half of the signature. */
  lemma {:induction false} SignatureFields(f: Frame)
    ensures HashKey(f) == f[8..40] && HashMsg(f) == f[40..72] && Half(f) == f[72..200]
  {
    PayloadSlice(f, 0, 32); PayloadSlice(f, 32, 64); PayloadSlice(f, 64, 192);
    hide Payload;
  }

  /** A genuine signature turns into 220 zeros, four ones and the hash. */
  lemma {:induction false} GenuineExactly(keys: Keys, signature: seq<uint8>, hash: seq<uint8>)
    ensures Genuine(keys, signature, hash) <==>
      exists p :: keys.rsa(signature) == Some(p) && |p| == 224 + |hash|
        && (forall i :: 0 <= i < 220 ==> p[i] == 0) && p[220..224] == [1, 1, 1, 1] && p[224..] == hash
  {
    var e := Expected(hash);
    assert e[220..224] == [1, 1, 1, 1] && e[224..] == hash;
    forall p: seq<uint8> | |p| == 224 + |hash| && (forall i :: 0 <= i < 220 ==> p[i] == 0)
        && p[220..224] == [1, 1, 1, 1] && p[224..] == hash
      ensures p == e
    {
      assert p[..220] == Zeros(220);
      assert p == p[..220] + p[220..224] + p[224..];
    }
  }

  // ----- The machine -----

  datatype Phase = Listening | WaitSig | WaitSig1 | WaitSig2

  datatype State = State(phase: Phase, lastValid: nat, received: Time, current: Frame,
                         hash: seq<uint8>, signature: seq<uint8>)

  function ReadyNext(s: State): State {
    State(Listening, s.lastValid, Time(0, 0), Zeros(FRAME_SIZE), Zeros(HASH_SIZE), Zeros(SIGNATURE_SIZE))
  }

  /** Waiting for the next command clears everything but the floor. */
  lemma {:induction false} ReadyNextClears(s: State)
    ensures var n := ReadyNext(s);
            && n.phase == Listening && n.lastValid == s.lastValid && n.received == Time(0, 0)
            && n.current == seq(212, _ => 0) && n.hash == seq(32, _ => 0) && n.signature == seq(256, _ => 0)
    ensures INITIAL.lastValid == 0 && INITIAL.phase == Listening
  {
  }

  const INITIAL: State := ReadyNext(State(Listening, 0, Time(0, 0), Zeros(FRAME_SIZE), [], []))

  /** A frame, the network time when it is handled, and what the buffer for the result of the RSA operation
      then holds. */
  datatype Arrival = Arrival(frame: Frame, now: Time, memory: seq<uint8>)

  /** A state after a frame, and the command that was executed, if any. */
  datatype Outcome = Outcome(state: State, executed: Option<Frame>)

  /** The sequence floor: nothing older than the last command executed. */
  predicate Admitted(s: State, f: Frame) {
    Sequence(f) >= s.lastValid
  }

  function HandleCommand(keys: Keys, s: State, f: Frame, now: Time): State {
    if !Admitted(s, f) then s
    else match keys.hash(f)
      case None => ReadyNext(s)
      case Some(h) => ReadyNext(s).(received := now, hash := h, current := f, phase := WaitSig)
  }

  function SignatureComplete(keys: Keys, s: State, memory: seq<uint8>): Outcome {
    if Approves(keys, s.signature, s.hash, memory)
    then Outcome(s.(lastValid := Sequence(s.current)), Some(s.current))
    else Outcome(ReadyNext(s), None)
  }

  function Part1(keys: Keys, s: State, half: seq<uint8>, memory: seq<uint8>): Outcome
    requires |s.signature| == SIGNATURE_SIZE
  {
    var s := s.(signature := half + s.signature[HALF_SIZE..]);
    if s.phase == WaitSig then Outcome(s.(phase := WaitSig2), None)
    else if s.phase == WaitSig1 then SignatureComplete(keys, s, memory)
    else Outcome(s, None)
  }

  function Part2(keys: Keys, s: State, half: seq<uint8>, memory: seq<uint8>): Outcome
    requires |s.signature| == SIGNATURE_SIZE
  {
    var s := s.(signature := s.signature[..HALF_SIZE] + half);
    if s.phase == WaitSig then Outcome(s.(phase := WaitSig1), None)
    else if s.phase == WaitSig2 then SignatureComplete(keys, s, memory)
    else Outcome(s, None)
  }

  function HandleSignature(keys: Keys, s: State, a: Arrival): Outcome
    requires |s.signature| == SIGNATURE_SIZE
  {
    var f := a.frame;
    if HashMsg(f) != s.hash then Outcome(s, None)
    else if Expired(s.received, a.now, TEN_SECONDS) then Outcome(ReadyNext(s), None)
    else if keys.keyHash != HashKey(f) then Outcome(s, None)
    else if TypeOf(f) == Sig1 then Part1(keys, s, Half(f), a.memory)
    else if TypeOf(f) == Sig2 then Part2(keys, s, Half(f), a.memory)
    else Outcome(s, None)
  }

  function Step(keys: Keys, s: State, a: Arrival): Outcome
    requires |s.signature| == SIGNATURE_SIZE
  {
    match TypeOf(a.frame)
    case Unsigned => Outcome(s, None)
    case Signed => Outcome(HandleCommand(keys, s, a.frame, a.now), None)
    case _ => HandleSignature(keys, s, a)
  }

  lemma {:induction false} BufferKept(keys: Keys, s: State, a: Arrival)
    requires |s.signature| == SIGNATURE_SIZE
    ensures |Step(keys, s, a).state.signature| == SIGNATURE_SIZE
  {
  }

  // ----- Execution -----

  /** What executing a command does: set the clock, ping its sender with its contents, or nothing. The
      length of the ping is computed in eight bits. */
  datatype Effect = SetClock(time: Time) | SendPing(node: uint8, contents: seq<uint8>, length: uint8) | Nothing

  function Execute(f: Frame): Effect {
    if Kind(f) == 1 then
      FromLe4(Contents(f)[..4]);
      SetClock(Time(FromLe(Contents(f)[..4]), Contents(f)[4]))
    else if Kind(f) == 2 then SendPing(Source(f), Contents(f), (Length(f) - CMD_HEADER_SIZE) % 0x100)
    else Nothing
  }

  /** The effects, on the bytes of the command frame: type 1 sets the clock to four bytes of seconds, the lowest
      first, and one of parts; type 2 pings the sender with the contents; nothing else has an effect. */
  lemma {:induction false} ExecutionIs(f: Frame)
    ensures Execute(f) ==
      if f[16] == 1 then SetClock(Time(Word(f[20], f[21], f[22], f[23]), f[24]))
      else if f[16] == 2 then SendPing(f[2], f[20..208], (f[5] as int - 12) % 256)
      else Nothing
  {
    CommandFields(f);
    FromLe4(Contents(f)[..4]);
    hide FromLe; hide Sequence;
  }

  /** The length of that ping stays within the contents exactly if the command frame has a possible length. */
  lemma {:induction false} PingFitsContents(f: Frame)
    requires Kind(f) == 2
    ensures Execute(f).length <= |Execute(f).contents| <==> CMD_HEADER_SIZE <= Length(f) <= PAYLOAD_SIZE
    ensures CMD_HEADER_SIZE <= Length(f) <= PAYLOAD_SIZE ==>
      Execute(f).contents[..Execute(f).length] == Payload(f)[CMD_HEADER_SIZE..Length(f)]
  {
  }

  // ----- The module's state -----

  class Commands {
    var phase: Phase
    var lastValid: nat
    var received: Time
    var current: Frame
    var hash: seq<uint8>
    var signature: array<uint8>
    const keys: Keys

    ghost predicate Valid()
      reads this
    {
      signature.Length == SIGNATURE_SIZE
    }

    ghost function Snapshot(): State
      reads this, signature
    {
      State(phase, lastValid, received, current, hash, signature[..])
    }

    constructor (keys: Keys)
      ensures Valid() && fresh(signature) && Snapshot() == INITIAL && this.keys == keys
    {
      this.keys := keys;
      phase, lastValid, received := Listening, 0, Time(0, 0);
      current, hash := Zeros(FRAME_SIZE), Zeros(HASH_SIZE);
      signature := new uint8[SIGNATURE_SIZE](_ => 0);
      new;
      assert signature[..] == Zeros(SIGNATURE_SIZE);
    }

    method CommandReadyNext()
      requires Valid()
      modifies this, signature
      ensures Valid() && signature == old(signature) && Snapshot() == ReadyNext(old(Snapshot()))
    {
      phase := Listening;
      current, received, hash := Zeros(FRAME_SIZE), Time(0, 0), Zeros(HASH_SIZE);
      Crypt.Write(signature, 0, Zeros(SIGNATURE_SIZE));
    }

    /** `memory` is what the buffer for the result held before. */
    method VerifySignature(memory: seq<uint8>) returns (valid: bool)
      requires Valid()
      ensures valid == Approves(keys, signature[..], hash, memory)
    {
      var plain := memory;
      var result := keys.rsa(signature[..]);
      if result.Some? { plain := result.value; }
      var expected := Zeros(220) + [1, 1, 1, 1] + hash;
      return plain == expected;
    }

    method SignatureReceived(memory: seq<uint8>) returns (executed: Option<Frame>)
      requires Valid()
      modifies this, signature
      ensures Valid() && signature == old(signature)
      ensures Outcome(Snapshot(), executed) == SignatureComplete(keys, old(Snapshot()), memory)
    {
      var valid := VerifySignature(memory);
      if !valid {
        CommandReadyNext();
        return None;
      }
      lastValid := Sequence(current);
      return Some(current);
    }

    method HandleCommandFrame(f: Frame, now: Time)
      requires Valid()
      modifies this, signature
      ensures Valid() && signature == old(signature)
      ensures Snapshot() == HandleCommand(keys, old(Snapshot()), f, now)
    {
      if Sequence(f) < lastValid { return; }
      CommandReadyNext();
      received := now;
      var h := keys.hash(f);
      if h.None? {
        CommandReadyNext();
        return;
      }
      hash := h.value;
      current := f;
      phase := WaitSig;
    }

    method HandleSignaturePart1(half: seq<uint8>, memory: seq<uint8>) returns (executed: Option<Frame>)
      requires Valid() && |half| == HALF_SIZE
      modifies this, signature
      ensures Valid() && signature == old(signature)
      ensures Outcome(Snapshot(), executed) == Part1(keys, old(Snapshot()), half, memory)
    {
      Crypt.Write(signature, 0, half);
      assert signature[..] == half + old(signature[..])[HALF_SIZE..];
      if phase == WaitSig {
        phase := WaitSig2;
        return None;
      }
      executed := None;
      if phase == WaitSig1 { executed := SignatureReceived(memory); }
    }

    method HandleSignaturePart2(half: seq<uint8>, memory: seq<uint8>) returns (executed: Option<Frame>)
      requires Valid() && |half| == HALF_SIZE
      modifies this, signature
      ensures Valid() && signature == old(signature)
      ensures Outcome(Snapshot(), executed) == Part2(keys, old(Snapshot()), half, memory)
    {
      Crypt.Write(signature, HALF_SIZE, half);
      assert signature[..] == old(signature[..])[..HALF_SIZE] + half;
      if phase == WaitSig {
        phase := WaitSig1;
        return None;
      }
      executed := None;
      if phase == WaitSig2 { executed := SignatureReceived(memory); }
    }

    method HandleSignatureFrame(a: Arrival) returns (executed: Option<Frame>)
      requires Valid()
      modifies this, signature
      ensures Valid() && signature == old(signature)
      ensures Outcome(Snapshot(), executed) == HandleSignature(keys, old(Snapshot()), a)
    {
      var f := a.frame;
      if HashMsg(f) != hash { return None; }
      var diff := Diff(received, a.now);
      if Compare(diff, TEN_SECONDS) > 0 {
        CommandReadyNext();
        return None;
      }
      if keys.keyHash != HashKey(f) { return None; }
      executed := None;
      match TypeOf(f)
      case Sig1 => executed := HandleSignaturePart1(Half(f), a.memory);
      case Sig2 => executed := HandleSignaturePart2(Half(f), a.memory);
      case _ =>
    }

    method CommandReceive(a: Arrival) returns (executed: Option<Frame>)
      requires Valid()
      modifies this, signature
      ensures Valid() && signature == old(signature)
      ensures Outcome(Snapshot(), executed) == Step(keys, old(Snapshot()), a)
    {
      executed := None;
      match TypeOf(a.frame)
      case Unsigned =>
      case Signed => HandleCommandFrame(a.frame, a.now);
      case _ => executed := HandleSignatureFrame(a);
    }
  }
}
