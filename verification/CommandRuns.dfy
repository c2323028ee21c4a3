/** What holds over all runs of the command receiver: every frame that arrives, at any time. */
module CommandRuns {
  import opened MachineTypes
  import opened NetTime
  import opened LowNet
  import opened Command

  /** The state after all arrivals of a run. */
  ghost function After(keys: Keys, run: seq<Arrival>): (s: State)
    ensures |s.signature| == SIGNATURE_SIZE
  {
    if run == [] then INITIAL else
      var s, a := After(keys, run[..|run| - 1]), run[|run| - 1];
      BufferKept(keys, s, a);
      Step(keys, s, a).state
  }

  /** The command executed on arrival `n`, if any. */
  ghost function Executed(keys: Keys, run: seq<Arrival>, n: nat): Option<Frame>
    requires n < |run|
  {
    Step(keys, After(keys, run[..n]), run[n]).executed
  }

  // ----- What an execution rests on, in terms of the arrivals alone -----

  /** Arrival `i` is a command frame above the floor: it replaces whatever was pending. */
  ghost predicate Replaces(keys: Keys, run: seq<Arrival>, i: int) {
    0 <= i < |run| && TypeOf(run[i].frame) == Signed && Admitted(After(keys, run[..i]), run[i].frame)
  }

  /** Arrival `i` is the most recent of them, and its hash could be computed. */
  ghost predicate Pending(keys: Keys, run: seq<Arrival>, i: int) {
    && Replaces(keys, run, i) && keys.hash(run[i].frame).Some?
    && forall k :: i < k < |run| ==> !Replaces(keys, run, k)
  }

  /** Arrival `j` is a signature half of type `t` for command `i`: later, with the command's hash and the
      key's hash, and within the time limit. */
  ghost predicate Supports(keys: Keys, run: seq<Arrival>, i: int, j: int, t: FrameType) {
    && 0 <= i < j < |run| && TypeOf(run[j].frame) == t
    && keys.hash(run[i].frame) == Some(HashMsg(run[j].frame))
    && keys.keyHash == HashKey(run[j].frame)
    && !Expired(run[i].now, run[j].now, TEN_SECONDS)
  }

  /** Arrival `j` is the latest such half. */
  ghost predicate Latest(keys: Keys, run: seq<Arrival>, i: int, j: int, t: FrameType) {
    Supports(keys, run, i, j, t) && forall k :: j < k < |run| ==> !Supports(keys, run, i, k, t)
  }

  /** Arrival `j` is a half of either type. */
  ghost predicate SupportsSome(keys: Keys, run: seq<Arrival>, i: int, j: int) {
    Supports(keys, run, i, j, Sig1) || Supports(keys, run, i, j, Sig2)
  }

  ghost predicate Unsupported(keys: Keys, run: seq<Arrival>, i: int) {
    forall j :: 0 <= j < |run| ==> !SupportsSome(keys, run, i, j)
  }

  /** Arrival `j` is the first half that supports command `i`, and it is of type `t`. */
  ghost predicate FirstIs(keys: Keys, run: seq<Arrival>, i: int, j: int, t: FrameType) {
    && (t == Sig1 || t == Sig2) && Supports(keys, run, i, j, t)
    && forall k :: 0 <= k < j ==> !SupportsSome(keys, run, i, k)
  }

  /** The last arrival is a half of the awaited type for command `i`: not the type that came first. */
  ghost predicate Completes(keys: Keys, run: seq<Arrival>, i: int) {
    && run != [] && SupportsSome(keys, run, i, |run| - 1)
    && exists j, t :: FirstIs(keys, run, i, j, t) && t != TypeOf(run[|run| - 1].frame)
  }

  /** The latest halves of command `i` together are approved as its signature on the last arrival. */
  ghost predicate Approved(keys: Keys, run: seq<Arrival>, i: int, j1: int, j2: int) {
    && run != [] && Latest(keys, run, i, j1, Sig1) && Latest(keys, run, i, j2, Sig2)
    && Approves(keys, Half(run[j1].frame) + Half(run[j2].frame), keys.hash(run[i].frame).value, run[|run| - 1].memory)
  }

  ghost predicate Signs(keys: Keys, run: seq<Arrival>, i: int) {
    exists j1, j2 :: Approved(keys, run, i, j1, j2)
  }

  /** The last arrival is a signature frame that carries the hash of command `i` after its time limit. */
  ghost predicate TooLate(keys: Keys, run: seq<Arrival>, i: int) {
    0 <= i < |run| - 1
    && var a := run[|run| - 1];
       && (TypeOf(a.frame) == Sig1 || TypeOf(a.frame) == Sig2)
       && keys.hash(run[i].frame) == Some(HashMsg(a.frame)) && Expired(run[i].now, a.now, TEN_SECONDS)
  }

  /** The last arrival puts an end to command `i`: it is late, or it completes a wrong signature. */
  ghost predicate Ends(keys: Keys, run: seq<Arrival>, i: int) {
    TooLate(keys, run, i) || (Completes(keys, run, i) && !Signs(keys, run, i))
  }

  ghost predicate EndsAt(keys: Keys, run: seq<Arrival>, i: int, k: int) {
    0 <= k < |run| && Ends(keys, run[..k + 1], i)
  }

  /** Command `i` is pending, and nothing has put an end to it. */
  ghost predicate Alive(keys: Keys, run: seq<Arrival>, i: int) {
    Pending(keys, run, i) && forall k :: i < k ==> !EndsAt(keys, run, i, k)
  }

  ghost predicate NoneAlive(keys: Keys, run: seq<Arrival>) {
    forall k :: !Alive(keys, run, k)
  }

  /** The last arrival should execute command `i`: it is alive, and now completely and correctly signed. */
  ghost predicate Triggers(keys: Keys, run: seq<Arrival>, i: int) {
    run != [] && Alive(keys, run[..|run| - 1], i) && Completes(keys, run, i) && Signs(keys, run, i)
  }

  // ----- The invariant -----

  /** A machine that is not listening has command `i` alive, and remembers it, its time, its hash and the
      latest half `j` of the type that came first; a listening one has none. */
  ghost predicate Tracked(keys: Keys, run: seq<Arrival>, s: State, i: int, j: int, first: int)
    requires |s.signature| == SIGNATURE_SIZE
  {
    if s.phase == Listening then NoneAlive(keys, run)
    else
      && Alive(keys, run, i)
      && s.current == run[i].frame && s.received == run[i].now && keys.hash(run[i].frame) == Some(s.hash)
      && s.lastValid <= Sequence(s.current)
      && (s.phase == WaitSig ==> Unsupported(keys, run, i))
      && (s.phase == WaitSig2 ==>
            FirstIs(keys, run, i, first, Sig1) && Latest(keys, run, i, j, Sig1) && s.signature[..HALF_SIZE] == Half(run[j].frame))
      && (s.phase == WaitSig1 ==>
            FirstIs(keys, run, i, first, Sig2) && Latest(keys, run, i, j, Sig2) && s.signature[HALF_SIZE..] == Half(run[j].frame))
  }

  lemma {:induction false} PrefixSame(keys: Keys, run: seq<Arrival>, n: nat)
    requires n <= |run|
    ensures forall k :: 0 <= k < n ==> (Replaces(keys, run, k) <==> Replaces(keys, run[..n], k))
    ensures forall i, k, t :: k < n ==> (Supports(keys, run, i, k, t) <==> Supports(keys, run[..n], i, k, t))
  {
    forall k | 0 <= k < n ensures Replaces(keys, run, k) <==> Replaces(keys, run[..n], k) {
      assert run[..n][..k] == run[..k];
    }
  }

  /** A command stays alive exactly if the last arrival neither replaces it nor puts an end to it. */
  lemma {:induction false} AliveExtends(keys: Keys, run: seq<Arrival>, i: int)
    requires run != [] && i != |run| - 1
    ensures var n := |run| - 1;
            Alive(keys, run, i) <==> Alive(keys, run[..n], i) && !Replaces(keys, run, n) && !Ends(keys, run, i)
  {
    var n := |run| - 1;
    PrefixSame(keys, run, n);
    hide Replaces; hide Ends;
    assert run[..n + 1] == run;
    forall k | k < n ensures EndsAt(keys, run[..n], i, k) <==> EndsAt(keys, run, i, k) {
      if 0 <= k { assert run[..n][..k + 1] == run[..k + 1]; }
    }
    assert EndsAt(keys, run, i, n) <==> Ends(keys, run, i);
    if Alive(keys, run[..n], i) && !Replaces(keys, run, n) && !Ends(keys, run, i) {
      forall k | i < k ensures !EndsAt(keys, run, i, k) {
        if k < n { assert !EndsAt(keys, run[..n], i, k); }
      }
    }
    if Alive(keys, run, i) {
      forall k | i < k ensures !EndsAt(keys, run[..n], i, k) {
        if k < n { assert !EndsAt(keys, run, i, k); }
      }
    }
  }

  /** Only one command is pending. */
  lemma {:induction false} OneAlive(keys: Keys, run: seq<Arrival>, i: int, k: int)
    ensures Alive(keys, run, i) && Alive(keys, run, k) ==> i == k
  {
  }

  /** What the last arrival leaves of the halves of a command. */
  lemma {:induction false} HalvesExtend(keys: Keys, run: seq<Arrival>, i: int, j: int, t: FrameType)
    requires run != []
    ensures var n := |run| - 1;
      && (FirstIs(keys, run[..n], i, j, t) ==> FirstIs(keys, run, i, j, t))
      && (Latest(keys, run[..n], i, j, t) && !Supports(keys, run, i, n, t) ==> Latest(keys, run, i, j, t))
      && (Supports(keys, run, i, n, t) ==> Latest(keys, run, i, n, t))
      && ((t == Sig1 || t == Sig2) && Unsupported(keys, run[..n], i) && Supports(keys, run, i, n, t) ==> FirstIs(keys, run, i, n, t))
      && (Unsupported(keys, run[..n], i) && !SupportsSome(keys, run, i, n) ==> Unsupported(keys, run, i))
  {
    var n := |run| - 1;
    PrefixSame(keys, run, n);
    forall k | 0 <= k < n ensures SupportsSome(keys, run, i, k) <==> SupportsSome(keys, run[..n], i, k) {
    }
    hide Supports;
  }

  /** The first half and its type are determined. */
  lemma {:induction false} OneFirst(keys: Keys, run: seq<Arrival>, i: int, j: int, t: FrameType)
    requires FirstIs(keys, run, i, j, t)
    ensures forall k, u :: FirstIs(keys, run, i, k, u) ==> k == j && u == t
  {
    forall k, u | FirstIs(keys, run, i, k, u) ensures k == j && u == t {
      assert SupportsSome(keys, run, i, k) && SupportsSome(keys, run, i, j);
    }
  }

  // ----- One arrival -----

  /** A command frame at or above the floor: it is alive if its hash could be computed, and nothing else is. */
  lemma {:induction false} CommandTracked(keys: Keys, run: seq<Arrival>)
    requires run != [] && Replaces(keys, run, |run| - 1)
    ensures var n := |run| - 1;
            Tracked(keys, run, After(keys, run), n, n, n) && Executed(keys, run, n) == None
    ensures forall i :: !Completes(keys, run, i)
  {
    var n := |run| - 1;
    forall k | Alive(keys, run, k) ensures k == n && keys.hash(run[n].frame).Some? { }
    assert keys.hash(run[n].frame).Some? ==> Pending(keys, run, n);
    assert Unsupported(keys, run, n);
    hide Alive;
    AliveAtFirst(keys, run);
  }

  lemma {:induction false} AliveAtFirst(keys: Keys, run: seq<Arrival>)
    requires run != []
    ensures Pending(keys, run, |run| - 1) ==> Alive(keys, run, |run| - 1)
  {
  }

  /** A frame at a listening machine that is no command to take. */
  lemma {:induction false} ListeningTracked(keys: Keys, run: seq<Arrival>)
    requires run != [] && !Replaces(keys, run, |run| - 1)
    requires var s := After(keys, run[..|run| - 1]);
             s.phase == Listening && NoneAlive(keys, run[..|run| - 1])
    ensures After(keys, run).phase == Listening && NoneAlive(keys, run)
    ensures Executed(keys, run, |run| - 1) == None
  {
    var n := |run| - 1;
    ListeningStep(keys, After(keys, run[..n]), run[n]);
    forall k ensures !Alive(keys, run, k) {
      if k != n { AliveExtends(keys, run, k); } else { AliveReplaced(keys, run, k); }
    }
  }

  lemma {:induction false} AliveReplaced(keys: Keys, run: seq<Arrival>, i: int)
    ensures Alive(keys, run, i) ==> Replaces(keys, run, i) && forall k :: i < k < |run| ==> !Replaces(keys, run, k)
  {
  }

  lemma {:induction false} ListeningStep(keys: Keys, s: State, a: Arrival)
    requires |s.signature| == SIGNATURE_SIZE && s.phase == Listening
    requires TypeOf(a.frame) == Signed ==> !Admitted(s, a.frame)
    ensures var o := Step(keys, s, a); o.state.phase == Listening && o.executed == None
  {
  }

  /** A frame that does not concern the command: no half in time, and not late. */
  lemma {:induction false} OtherTracked(keys: Keys, run: seq<Arrival>, i: int, j: int, first: int)
    requires run != [] && !Replaces(keys, run, |run| - 1) && !SupportsSome(keys, run, i, |run| - 1) && !TooLate(keys, run, i)
    requires var n := |run| - 1;
             After(keys, run[..n]).phase != Listening && Tracked(keys, run[..n], After(keys, run[..n]), i, j, first)
    ensures Tracked(keys, run, After(keys, run), i, j, first) && Executed(keys, run, |run| - 1) == None
  {
    var n := |run| - 1;
    var s, a := After(keys, run[..n]), run[n];
    AliveReplaced(keys, run[..n], i);
    assert Step(keys, s, a) == Outcome(s, None);
    OtherExtends(keys, run, i, j, first);
  }

  lemma {:induction false} OtherExtends(keys: Keys, run: seq<Arrival>, i: int, j: int, first: int)
    requires run != [] && !Replaces(keys, run, |run| - 1) && !SupportsSome(keys, run, i, |run| - 1) && !TooLate(keys, run, i)
    ensures var n := |run| - 1;
      && (i < n && Alive(keys, run[..n], i) ==> Alive(keys, run, i))
      && (Unsupported(keys, run[..n], i) ==> Unsupported(keys, run, i))
      && (forall t :: FirstIs(keys, run[..n], i, first, t) ==> FirstIs(keys, run, i, first, t))
      && (Latest(keys, run[..n], i, j, Sig1) ==> Latest(keys, run, i, j, Sig1))
      && (Latest(keys, run[..n], i, j, Sig2) ==> Latest(keys, run, i, j, Sig2))
  {
    var n := |run| - 1;
    assert !Ends(keys, run, i);
    if i < n { AliveExtends(keys, run, i); }
    HalvesExtend(keys, run, i, j, Sig1); HalvesExtend(keys, run, i, j, Sig2);
    HalvesExtend(keys, run, i, first, Sig1); HalvesExtend(keys, run, i, first, Sig2);
    hide Alive; hide Ends; hide Supports;
  }

  /** A command comes to its end. */
  lemma {:induction false} EndedTracked(keys: Keys, run: seq<Arrival>, i: int)
    requires run != [] && !Replaces(keys, run, |run| - 1) && Alive(keys, run[..|run| - 1], i) && Ends(keys, run, i)
    ensures NoneAlive(keys, run)
  {
    var n := |run| - 1;
    forall k ensures !Alive(keys, run, k) {
      AliveReplaced(keys, run, k);
      if k != n {
        AliveExtends(keys, run, k);
        OneAlive(keys, run[..n], i, k);
      }
      hide Alive; hide Ends;
    }
  }

  lemma {:induction false} LateTracked(keys: Keys, run: seq<Arrival>, i: int, j: int, first: int)
    requires run != [] && TooLate(keys, run, i)
    requires var n := |run| - 1;
             After(keys, run[..n]).phase != Listening && Tracked(keys, run[..n], After(keys, run[..n]), i, j, first)
    ensures Tracked(keys, run, After(keys, run), i, j, first) && Executed(keys, run, |run| - 1) == None
    ensures !SupportsSome(keys, run, i, |run| - 1)
  {
    var n := |run| - 1;
    var s, a := After(keys, run[..n]), run[n];
    assert Step(keys, s, a) == Outcome(ReadyNext(s), None);
    assert !Replaces(keys, run, n);
    EndedTracked(keys, run, i);
  }

  /** The type a machine waits for; both, if no half has come yet. */
  predicate Awaits(s: State, t: FrameType) {
    (s.phase == WaitSig2 && t == Sig2) || (s.phase == WaitSig1 && t == Sig1)
  }

  /** A half in time completes the signature exactly if the machine waits for its type. */
  lemma {:induction false} CompletesExactly(keys: Keys, run: seq<Arrival>, i: int, j: int, first: int)
    requires run != [] && SupportsSome(keys, run, i, |run| - 1)
    requires var n := |run| - 1;
             After(keys, run[..n]).phase != Listening && Tracked(keys, run[..n], After(keys, run[..n]), i, j, first)
    ensures Completes(keys, run, i) <==> Awaits(After(keys, run[..|run| - 1]), TypeOf(run[|run| - 1].frame))
  {
    var n := |run| - 1;
    var s, t := After(keys, run[..n]), TypeOf(run[n].frame);
    var f := if s.phase == WaitSig then n else first;
    var u := if s.phase == WaitSig then t else if s.phase == WaitSig2 then Sig1 else Sig2;
    HalvesExtend(keys, run, i, f, u);
    assert FirstIs(keys, run, i, f, u);
    OneFirst(keys, run, i, f, u);
    hide FirstIs; hide Alive; hide Supports;
  }

  /** A half in time is remembered, and the signature is judged if it is complete. */
  lemma {:induction false} HalfTracked(keys: Keys, run: seq<Arrival>, i: int, j: int, first: int)
      returns (j': int, first': int)
    requires run != [] && SupportsSome(keys, run, i, |run| - 1)
    requires var n := |run| - 1;
             After(keys, run[..n]).phase != Listening && Tracked(keys, run[..n], After(keys, run[..n]), i, j, first)
    ensures Tracked(keys, run, After(keys, run), i, j', first')
    ensures var executed := Executed(keys, run, |run| - 1);
            executed == if Completes(keys, run, i) && Signs(keys, run, i) then Some(run[i].frame) else None
  {
    var n := |run| - 1;
    CompletesExactly(keys, run, i, j, first);
    AliveReplaced(keys, run[..n], i);
    if Completes(keys, run, i) {
      j', first' := j, first;
      SignedHalf(keys, run, i, j, first);
    } else {
      j' := n;
      first' := if After(keys, run[..n]).phase == WaitSig then n else first;
      UnsignedHalf(keys, run, i, j, first);
    }
  }

  /** A half of the first type, or the first half at all. */
  lemma {:induction false} UnsignedHalf(keys: Keys, run: seq<Arrival>, i: int, j: int, first: int)
    requires run != [] && SupportsSome(keys, run, i, |run| - 1)
    requires var n := |run| - 1;
             After(keys, run[..n]).phase != Listening && Tracked(keys, run[..n], After(keys, run[..n]), i, j, first)
             && !Awaits(After(keys, run[..n]), TypeOf(run[n].frame)) && !Completes(keys, run, i)
    ensures var n := |run| - 1;
            Tracked(keys, run, After(keys, run), i, n, if After(keys, run[..n]).phase == WaitSig then n else first)
            && Executed(keys, run, n) == None
  {
    var n := |run| - 1;
    var s, t := After(keys, run[..n]), TypeOf(run[n].frame);
    HalvesExtend(keys, run, i, first, t);
    AliveReplaced(keys, run[..n], i);
    AliveExtends(keys, run, i);
    assert !TooLate(keys, run, i) && !Replaces(keys, run, n);
    StoresHalf(keys, s, run[n]);
    hide Alive; hide FirstIs; hide Latest; hide Unsupported; hide Step;
  }

  /** What the machine does with a half in time that it does not wait for. */
  lemma {:induction false} StoresHalf(keys: Keys, s: State, a: Arrival)
    requires |s.signature| == SIGNATURE_SIZE && s.phase != Listening
    requires TypeOf(a.frame) == Sig1 || TypeOf(a.frame) == Sig2
    requires Fits(keys, s, a) && !Awaits(s, TypeOf(a.frame))
    ensures var o := Step(keys, s, a);
            && o.executed == None && o.state.phase == (if TypeOf(a.frame) == Sig1 then WaitSig2 else WaitSig1)
            && o.state == s.(phase := o.state.phase, signature := o.state.signature)
            && |o.state.signature| == SIGNATURE_SIZE
            && (TypeOf(a.frame) == Sig1 ==> o.state.signature[..HALF_SIZE] == Half(a.frame))
            && (TypeOf(a.frame) == Sig2 ==> o.state.signature[HALF_SIZE..] == Half(a.frame))
  {
  }

  /** What it does with one that it waits for. */
  lemma {:induction false} JudgesSignature(keys: Keys, s: State, a: Arrival, other: seq<uint8>)
    requires |s.signature| == SIGNATURE_SIZE && s.phase != Listening
    requires Fits(keys, s, a) && Awaits(s, TypeOf(a.frame))
    requires other == if s.phase == WaitSig2 then s.signature[..HALF_SIZE] else s.signature[HALF_SIZE..]
    ensures var o := Step(keys, s, a);
            var whole := if s.phase == WaitSig2 then other + Half(a.frame) else Half(a.frame) + other;
            if Approves(keys, whole, s.hash, a.memory)
            then o.executed == Some(s.current) && o.state == s.(lastValid := Sequence(s.current), signature := whole)
            else o.executed == None && o.state.phase == Listening
  {
    assert s.signature[..HALF_SIZE] + Half(a.frame) == other + Half(a.frame) || s.phase == WaitSig1;
    assert Half(a.frame) + s.signature[HALF_SIZE..] == Half(a.frame) + other || s.phase == WaitSig2;
  }

  /** The awaited half is the latest of its type, and the other stays the latest of the first type. */
  lemma {:induction false} SecondHalf(keys: Keys, run: seq<Arrival>, i: int, j: int, first: int, t: FrameType, u: FrameType)
    requires run != [] && Supports(keys, run, i, |run| - 1, t) && Alive(keys, run[..|run| - 1], i)
    requires (t == Sig1 && u == Sig2) || (t == Sig2 && u == Sig1)
    requires var n := |run| - 1; Latest(keys, run[..n], i, j, u) && FirstIs(keys, run[..n], i, first, u)
    ensures Latest(keys, run, i, |run| - 1, t) && Latest(keys, run, i, j, u) && FirstIs(keys, run, i, first, u)
    ensures 0 <= i < |run| - 1 && 0 <= j < |run| - 1 && !TooLate(keys, run, i) && !Replaces(keys, run, |run| - 1)
    ensures Signs(keys, run, i) || !Completes(keys, run, i) ==> Alive(keys, run, i)
  {
    var n := |run| - 1;
    HalvesExtend(keys, run, i, n, t);
    HalvesExtend(keys, run, i, j, u);
    HalvesExtend(keys, run, i, first, u);
    assert !Supports(keys, run, i, n, u);
    AliveReplaced(keys, run[..n], i);
    AliveExtends(keys, run, i);
    hide Alive; hide FirstIs; hide Completes; hide Signs;
  }

  /** The half that was awaited. */
  lemma {:induction false} SignedHalf(keys: Keys, run: seq<Arrival>, i: int, j: int, first: int)
    requires run != [] && SupportsSome(keys, run, i, |run| - 1)
    requires var n := |run| - 1;
             After(keys, run[..n]).phase != Listening && Tracked(keys, run[..n], After(keys, run[..n]), i, j, first)
             && Awaits(After(keys, run[..n]), TypeOf(run[n].frame)) && Completes(keys, run, i)
    ensures Tracked(keys, run, After(keys, run), i, j, first)
    ensures Executed(keys, run, |run| - 1) == if Signs(keys, run, i) then Some(run[i].frame) else None
  {
    var n := |run| - 1;
    var s, a := After(keys, run[..n]), run[n];
    var t := TypeOf(a.frame);
    var u := if t == Sig1 then Sig2 else Sig1;
    SecondHalf(keys, run, i, j, first, t, u);
    assert Fits(keys, s, a);
    JudgesSignature(keys, s, a, Half(run[j].frame));
    SignsExactly(keys, run, i, if t == Sig1 then n else j, if t == Sig1 then j else n);
    if !Signs(keys, run, i) { EndedTracked(keys, run, i); }
    hide Alive; hide NoneAlive; hide FirstIs; hide Latest; hide Unsupported; hide Step; hide Signs; hide Approves; hide Completes; hide Supports;
  }

  /** The latest halves are determined. */
  lemma {:induction false} SignsExactly(keys: Keys, run: seq<Arrival>, i: int, j1: int, j2: int)
    requires run != [] && Latest(keys, run, i, j1, Sig1) && Latest(keys, run, i, j2, Sig2)
    ensures Signs(keys, run, i) <==> Approved(keys, run, i, j1, j2)
  {
    if Signs(keys, run, i) {
      var k1, k2 :| Approved(keys, run, i, k1, k2);
      assert Supports(keys, run, i, k1, Sig1) && Supports(keys, run, i, k2, Sig2);
      assert k1 == j1 && k2 == j2;
    }
  }

  // ----- Runs -----

  /** The machine is tracked after every run, and executes a command exactly on an arrival that triggers it. */
  lemma {:induction false} TrackedAfter(keys: Keys, run: seq<Arrival>) returns (i: int, j: int, first: int)
    ensures Tracked(keys, run, After(keys, run), i, j, first)
  {
    if run == [] { return 0, 0, 0; }
    var n := |run| - 1;
    i, j, first := TrackedAfter(keys, run[..n]);
    i, j, first := ArrivalTracked(keys, run, i, j, first);
  }

  lemma {:induction false} ArrivalTracked(keys: Keys, run: seq<Arrival>, i: int, j: int, first: int)
      returns (i': int, j': int, first': int)
    requires run != []
    requires var n := |run| - 1; Tracked(keys, run[..n], After(keys, run[..n]), i, j, first)
    ensures Tracked(keys, run, After(keys, run), i', j', first')
    ensures var n := |run| - 1;
            var s, executed := After(keys, run[..n]), Executed(keys, run, n);
            executed == if s.phase != Listening && Completes(keys, run, i) && Signs(keys, run, i)
                        then Some(run[i].frame) else None
  {
    var n := |run| - 1;
    i', j', first' := i, j, first;
    hide Step; hide Completes; hide Signs;
    if Replaces(keys, run, n) {
      CommandTracked(keys, run);
      i', j', first' := n, n, n;
    } else if After(keys, run[..n]).phase == Listening {
      ListeningTracked(keys, run);
    } else if SupportsSome(keys, run, i, n) {
      j', first' := HalfTracked(keys, run, i, j, first);
    } else if TooLate(keys, run, i) {
      LateTracked(keys, run, i, j, first);
      UnsupportedIncomplete(keys, run, i);
    } else {
      OtherTracked(keys, run, i, j, first);
      UnsupportedIncomplete(keys, run, i);
    }
  }

  lemma {:induction false} UnsupportedIncomplete(keys: Keys, run: seq<Arrival>, i: int)
    requires run != [] && !SupportsSome(keys, run, i, |run| - 1)
    ensures !Completes(keys, run, i)
  {
  }

  // ----- Theorems -----

  /** When a command is executed, over whole runs and in terms of the arrivals: the last arrival executes a
      command exactly if it triggers one, and then it executes that one. So the command is the most recently
      accepted one; the arrival is a half of it in time, of the type opposite to the first that came; the
      latest halves of either type are approved as its signature; and no late frame of its hash and no
      wrong signature came before. */
  lemma {:induction false} ExecutesExactly(keys: Keys, run: seq<Arrival>)
    requires run != []
    ensures Executed(keys, run, |run| - 1).Some? <==> exists i :: Triggers(keys, run, i)
    ensures forall i :: Triggers(keys, run, i) ==> Executed(keys, run, |run| - 1) == Some(run[i].frame)
  {
    var n := |run| - 1;
    var i, j, first := TrackedAfter(keys, run[..n]);
    var _, _, _ := ArrivalTracked(keys, run, i, j, first);
    forall k | Triggers(keys, run, k) ensures k == i && After(keys, run[..n]).phase != Listening {
      if After(keys, run[..n]).phase != Listening { OneAlive(keys, run[..n], i, k); }
    }
    assert Executed(keys, run, n).Some? ==> Triggers(keys, run, i);
    hide Alive; hide Completes; hide Signs;
  }

  /** What justifies an execution on the last arrival: command `i` is the most recent one, `j1` and `j2` are
      its latest halves, the arrival is one of them, and put together they are approved as its signature. */
  ghost predicate Justified(keys: Keys, run: seq<Arrival>, i: int, j1: int, j2: int) {
    Pending(keys, run, i) && Approved(keys, run, i, j1, j2) && (j1 == |run| - 1 || j2 == |run| - 1)
  }

  /** Authorised execution: whenever a command is executed, its frame is the most recently accepted command,
      and the latest first and second half that arrived after it, with its hash and the hash of the key and
      within the time limit, are approved as its signature; the arrival at hand is one of the two. */
  lemma {:induction false} OnlyAuthorisedCommandsExecute(keys: Keys, run: seq<Arrival>)
    requires run != [] && Executed(keys, run, |run| - 1).Some?
    ensures exists i, j1, j2 :: Justified(keys, run, i, j1, j2)
              && Executed(keys, run, |run| - 1) == Some(run[i].frame)
  {
    ExecutesExactly(keys, run);
    var i :| Triggers(keys, run, i);
    var j1, j2 := TriggerIsJustified(keys, run, i);
  }

  lemma {:induction false} TriggerIsJustified(keys: Keys, run: seq<Arrival>, i: int) returns (j1: int, j2: int)
    requires Triggers(keys, run, i)
    ensures Justified(keys, run, i, j1, j2)
  {
    j1, j2 :| Approved(keys, run, i, j1, j2);
    StillPending(keys, run, i);
    hide Alive; hide Supports; hide Approves; hide Pending;
    assert Supports(keys, run, i, |run| - 1, Sig1) || Supports(keys, run, i, |run| - 1, Sig2);
  }

  lemma {:induction false} StillPending(keys: Keys, run: seq<Arrival>, i: int)
    requires run != [] && Alive(keys, run[..|run| - 1], i) && SupportsSome(keys, run, i, |run| - 1)
    ensures Pending(keys, run, i)
  {
    PrefixSame(keys, run, |run| - 1);
    assert !Replaces(keys, run, |run| - 1);
    hide Replaces; hide EndsAt;
  }

  /** The sequence numbers of the commands executed in a run, in order. */
  ghost function ExecutedNumbers(keys: Keys, run: seq<Arrival>): seq<nat> {
    if run == [] then [] else
      var executed := Executed(keys, run, |run| - 1);
      ExecutedNumbers(keys, run[..|run| - 1]) + (if executed.Some? then [Sequence(executed.value)] else [])
  }

  lemma {:induction false} ExecutionSetsFloor(keys: Keys, s: State, a: Arrival)
    requires |s.signature| == SIGNATURE_SIZE
    ensures var o := Step(keys, s, a);
            if o.executed.Some? then
              s.phase != Listening && o.executed.value == s.current && o.state.lastValid == Sequence(s.current)
            else o.state.lastValid == s.lastValid
  {
  }

  /** A pending command is never below the floor. */
  lemma {:induction false} PendingIsAboveFloor(keys: Keys, run: seq<Arrival>)
    ensures var s := After(keys, run); s.phase != Listening ==> s.lastValid <= Sequence(s.current)
  {
    var _, _, _ := TrackedAfter(keys, run);
  }

  ghost predicate NonDecreasing(numbers: seq<nat>) {
    forall i, j :: 0 <= i < j < |numbers| ==> numbers[i] <= numbers[j]
  }

  /** The largest of a nondecreasing list. */
  function Last(numbers: seq<nat>): nat {
    if numbers == [] then 0 else numbers[|numbers| - 1]
  }

  lemma {:induction false} AppendsInOrder(numbers: seq<nat>, x: nat)
    requires NonDecreasing(numbers) && Last(numbers) <= x
    ensures NonDecreasing(numbers + [x]) && Last(numbers + [x]) == x
  {
  }

  /** Executed sequence numbers never decrease, and the floor is the last of them. */
  lemma {:induction false} NumbersNeverDecrease(keys: Keys, run: seq<Arrival>)
    ensures NonDecreasing(ExecutedNumbers(keys, run))
    ensures After(keys, run).lastValid == Last(ExecutedNumbers(keys, run))
  {
    if run != [] {
      var n := |run| - 1;
      var s, numbers := After(keys, run[..n]), ExecutedNumbers(keys, run[..n]);
      NumbersNeverDecrease(keys, run[..n]);
      PendingIsAboveFloor(keys, run[..n]);
      ExecutionSetsFloor(keys, s, run[n]);
      if s.phase != Listening { AppendsInOrder(numbers, Sequence(s.current)); }
      assert numbers + [] == numbers;
      hide Step; hide Sequence; hide NonDecreasing; hide Last;
    }
  }

  /** A signature frame for the pending command, under the key in use and in time. */
  predicate Fits(keys: Keys, s: State, a: Arrival) {
    HashMsg(a.frame) == s.hash && HashKey(a.frame) == keys.keyHash && !Expired(s.received, a.now, TEN_SECONDS)
  }

  /** The two halves do the same in either order: the command is executed exactly if they are approved as
      its signature, and what is remembered differs at most in the half that is awaited next. */
  lemma {:induction false} HalvesInEitherOrder(keys: Keys, s: State, a: Arrival, b: Arrival, a': Arrival, b': Arrival)
    requires |s.signature| == SIGNATURE_SIZE && s.phase == WaitSig
    requires a.frame == a'.frame && b.frame == b'.frame && TypeOf(a.frame) == Sig1 && TypeOf(b.frame) == Sig2
    requires Fits(keys, s, a) && Fits(keys, s, b) && Fits(keys, s, a') && Fits(keys, s, b') && a'.memory == b'.memory
    ensures var x, y := Step(keys, s, a).state, Step(keys, s, b).state;
            |x.signature| == SIGNATURE_SIZE && |y.signature| == SIGNATURE_SIZE
            && var p, q := Step(keys, x, b'), Step(keys, y, a');
            && p.executed == q.executed
            && p.executed == (if Approves(keys, Half(a.frame) + Half(b.frame), s.hash, b'.memory) then Some(s.current) else None)
            && p.state.(phase := WaitSig) == q.state.(phase := WaitSig)
            && (p.executed.None? ==> p.state == q.state == ReadyNext(s))
  {
    var x, y := Step(keys, s, a).state, Step(keys, s, b).state;
    assert x.signature[..HALF_SIZE] + Half(b.frame) == Half(a.frame) + Half(b.frame);
    assert Half(a.frame) + y.signature[HALF_SIZE..] == Half(a.frame) + Half(b.frame);
  }

  // ----- On the bytes of the frames -----

  /** The number in a command frame. */
  function NumberIn(f: Frame): int {
    Word(f[8], f[9], f[10], f[11]) + 0x1_0000_0000 * Word(f[12], f[13], f[14], f[15])
  }

  /** At most ten seconds have passed, in 1/256 s modulo 2^32. */
  predicate InTime(start: Time, now: Time) {
    ((256 * now.seconds as int + now.parts) - (256 * start.seconds as int + start.parts)) % 0x1_0000_0000 <= 2560
  }

  /** A frame carries the hash of the key in bytes 8 to 39 and that of the command in bytes 40 to 71, in time. */
  predicate Matches(keys: Keys, c: Arrival, a: Arrival) {
    a.frame[8..40] == keys.keyHash && keys.hash(c.frame) == Some(a.frame[40..72]) && InTime(c.now, a.now)
  }

  /** A command is accepted, on its bytes, if its number is not below that of the last command executed. */
  lemma {:induction false} ReplacesExactly(keys: Keys, run: seq<Arrival>, i: nat)
    requires i < |run|
    ensures Replaces(keys, run, i) <==>
      64 <= run[i].frame[4] < 128 && NumberIn(run[i].frame) >= Last(ExecutedNumbers(keys, run[..i]))
  {
    NumbersNeverDecrease(keys, run[..i]);
    FrameTypes(run[i].frame);
    CommandFields(run[i].frame);
    hide TypeOf; hide Sequence; hide ExecutedNumbers; hide After; hide Last; hide Word; hide NonDecreasing;
  }

  /** What it is to be a half of a command's signature, on the bytes of the frame. */
  lemma {:induction false} SupportsExactly(keys: Keys, run: seq<Arrival>, i: nat, j: nat)
    requires i < j < |run|
    ensures Supports(keys, run, i, j, Sig1) <==> (128 <= run[j].frame[4] < 192 && Matches(keys, run[i], run[j]))
    ensures Supports(keys, run, i, j, Sig2) <==> (192 <= run[j].frame[4] && Matches(keys, run[i], run[j]))
  {
    FrameTypes(run[j].frame);
    SignatureFields(run[j].frame);
    TenSecondsExactly(run[i].now, run[j].now);
    hide TypeOf; hide HashMsg; hide HashKey; hide Expired;
  }

  /** What it is to come too late, on the bytes of the frame. */
  lemma {:induction false} TooLateExactly(keys: Keys, run: seq<Arrival>, i: nat)
    requires i < |run| - 1
    ensures var a := run[|run| - 1];
            TooLate(keys, run, i) <==>
              128 <= a.frame[4] && keys.hash(run[i].frame) == Some(a.frame[40..72]) && !InTime(run[i].now, a.now)
  {
    var a := run[|run| - 1];
    FrameTypes(a.frame);
    SignatureFields(a.frame);
    TenSecondsExactly(run[i].now, a.now);
    hide TypeOf; hide HashMsg; hide HashKey; hide Expired;
  }

  /** After any run, on the bytes: a command frame with a number not below that of the last command executed,
      followed in time by frames with the key's hash, its own hash and the two halves of a signature that RSA turns
      into 220 zeros, four ones and its hash, is executed. */
  lemma {:induction false} GenuineFramesExecute(keys: Keys, run: seq<Arrival>, c: Arrival, a: Arrival, b: Arrival,
                                                hash: seq<uint8>, half1: seq<uint8>, half2: seq<uint8>)
    requires 64 <= c.frame[4] < 128 && 128 <= a.frame[4] < 192 && 192 <= b.frame[4]
    requires keys.hash(c.frame) == Some(hash) && |hash| == |keys.keyHash| == 32 && |half1| == |half2| == 128
    requires a.frame[8..200] == keys.keyHash + hash + half1 && b.frame[8..200] == keys.keyHash + hash + half2
    requires keys.rsa(half1 + half2) == Some(seq(220, _ => 0) + [1, 1, 1, 1] + hash)
    requires NumberIn(c.frame) >= Last(ExecutedNumbers(keys, run)) && InTime(c.now, a.now) && InTime(c.now, b.now)
    ensures Executed(keys, run + [c] + [a] + [b], |run| + 2) == Some(c.frame)
  {
    GenuineFramesSign(keys, c, a, b, hash, half1, half2);
    NumberAdmits(keys, run, c.frame);
    hide *;
    SignedCommandExecutes(keys, run, c, a, b);
  }

  lemma {:induction false} NumberAdmits(keys: Keys, run: seq<Arrival>, f: Frame)
    requires NumberIn(f) >= Last(ExecutedNumbers(keys, run))
    ensures Admitted(After(keys, run), f)
  {
    NumbersNeverDecrease(keys, run);
    CommandFields(f);
    hide After; hide Last; hide ExecutedNumbers; hide NonDecreasing; hide Sequence; hide Word;
  }

  lemma {:induction false} GenuineFramesSign(keys: Keys, c: Arrival, a: Arrival, b: Arrival,
                                             hash: seq<uint8>, half1: seq<uint8>, half2: seq<uint8>)
    requires 64 <= c.frame[4] < 128 && 128 <= a.frame[4] < 192 && 192 <= b.frame[4]
    requires keys.hash(c.frame) == Some(hash) && |hash| == |keys.keyHash| == 32 && |half1| == |half2| == 128
    requires a.frame[8..200] == keys.keyHash + hash + half1 && b.frame[8..200] == keys.keyHash + hash + half2
    requires keys.rsa(half1 + half2) == Some(seq(220, _ => 0) + [1, 1, 1, 1] + hash)
    requires InTime(c.now, a.now) && InTime(c.now, b.now)
    ensures SignedCommand(keys, c, a, b)
  {
    FrameTypes(c.frame); FrameTypes(a.frame); FrameTypes(b.frame);
    FieldsOf(a.frame, keys.keyHash, hash, half1); FieldsOf(b.frame, keys.keyHash, hash, half2);
    TenSecondsExactly(c.now, a.now); TenSecondsExactly(c.now, b.now);
    assert Zeros(220) == seq(220, _ => 0);
    hide Expired; hide TypeOf; hide HashMsg; hide HashKey; hide Half;
  }

  lemma {:induction false} FieldsOf(f: Frame, keyHash: seq<uint8>, hash: seq<uint8>, half: seq<uint8>)
    requires |hash| == |keyHash| == 32 && |half| == 128 && f[8..200] == keyHash + hash + half
    ensures HashKey(f) == keyHash && HashMsg(f) == hash && Half(f) == half
  {
    SignatureFields(f);
    assert f[8..40] == f[8..200][..32] && f[40..72] == f[8..200][32..64] && f[72..200] == f[8..200][64..];
  }

  /** A signature frame with the two hashes exchanged leaves the receiver as it is. */
  lemma {:induction false} ExchangedHashesAreIgnored(keys: Keys, s: State, a: Arrival)
    requires |s.signature| == SIGNATURE_SIZE && 128 <= a.frame[4]
    requires a.frame[8..40] == s.hash && a.frame[40..72] == keys.keyHash && keys.keyHash != s.hash
    ensures Step(keys, s, a) == Outcome(s, None)
  {
    FrameTypes(a.frame);
    SignatureFields(a.frame);
  }

  // ----- Execution is not at most once -----

  /** If the frame that completed a signature arrives again, it executes the command again, and leaves the
      same state for the next time, exactly if it arrives within the time limit and is approved once more.
      Otherwise it ends the command. */
  lemma {:induction false} ExecutionRepeats(keys: Keys, s: State, a: Arrival, again: Arrival)
    requires |s.signature| == SIGNATURE_SIZE
    requires Step(keys, s, a).executed.Some? && again.frame == a.frame
    ensures var o := Step(keys, s, a);
            |o.state.signature| == SIGNATURE_SIZE
            && Step(keys, o.state, again)
               == if !Expired(s.received, again.now, TEN_SECONDS) && Approves(keys, o.state.signature, s.hash, again.memory)
                  then o else Outcome(ReadyNext(o.state), None)
  {
    var o := Step(keys, s, a);
    if TypeOf(a.frame) == Sig1 {
      assert o.state.signature == Half(a.frame) + s.signature[HALF_SIZE..];
      assert o.state.signature[HALF_SIZE..] == s.signature[HALF_SIZE..];
    } else {
      assert o.state.signature == s.signature[..HALF_SIZE] + Half(a.frame);
      assert o.state.signature[..HALF_SIZE] == s.signature[..HALF_SIZE];
    }
  }

  /** Three arrivals that carry a command and the halves of its genuine signature, in time. */
  predicate SignedCommand(keys: Keys, c: Arrival, a: Arrival, b: Arrival) {
    && TypeOf(c.frame) == Signed && TypeOf(a.frame) == Sig1 && TypeOf(b.frame) == Sig2
    && keys.hash(c.frame) == Some(HashMsg(a.frame)) == Some(HashMsg(b.frame))
    && HashKey(a.frame) == HashKey(b.frame) == keys.keyHash
    && !Expired(c.now, a.now, TEN_SECONDS) && !Expired(c.now, b.now, TEN_SECONDS)
    && Genuine(keys, Half(a.frame) + Half(b.frame), HashMsg(a.frame))
  }

  lemma {:induction false} SignedCommandSteps(keys: Keys, s: State, c: Arrival, a: Arrival, b: Arrival)
    requires |s.signature| == SIGNATURE_SIZE && SignedCommand(keys, c, a, b) && Admitted(s, c.frame)
    ensures var x := Step(keys, s, c).state;
            |x.signature| == SIGNATURE_SIZE
            && var y := Step(keys, x, a).state;
               |y.signature| == SIGNATURE_SIZE
               && Step(keys, y, b).executed == Some(c.frame) && Step(keys, y, b).state.lastValid == Sequence(c.frame)
  {
    var x := Step(keys, s, c).state;
    assert |x.signature| == SIGNATURE_SIZE && x.phase == WaitSig && x.hash == HashMsg(a.frame) && x.received == c.now;
    assert x.current == c.frame;
    StoresHalf(keys, x, a);
    var y := Step(keys, x, a).state;
    JudgesSignature(keys, y, b, Half(a.frame));
    hide Step; hide ReadyNext;
  }

  lemma {:induction false} OneMore(keys: Keys, run: seq<Arrival>, a: Arrival)
    ensures var o := Step(keys, After(keys, run), a);
            After(keys, run + [a]) == o.state && Executed(keys, run + [a], |run|) == o.executed
  {
    assert (run + [a])[..|run|] == run;
    hide Step;
  }

  /** After any run, a command at or above the floor is executed when its genuine halves follow it. */
  lemma {:induction false} SignedCommandExecutes(keys: Keys, run: seq<Arrival>, c: Arrival, a: Arrival, b: Arrival)
    requires SignedCommand(keys, c, a, b) && Admitted(After(keys, run), c.frame)
    ensures var longer := run + [c] + [a] + [b];
            && Executed(keys, longer, |run| + 2) == Some(c.frame)
            && After(keys, longer).lastValid == Sequence(c.frame)
  {
    SignedCommandSteps(keys, After(keys, run), c, a, b);
    hide Step; hide After; hide Executed;
    OneMore(keys, run, c);
    OneMore(keys, run + [c], a);
    OneMore(keys, run + [c] + [a], b);
  }

  /** Arrivals repeat a command and its halves. */
  predicate Replayed(c: Arrival, a: Arrival, b: Arrival, c': Arrival, a': Arrival, b': Arrival) {
    c'.frame == c.frame && a'.frame == a.frame && b'.frame == b.frame
  }

  /** From the start, two ways to execute one command twice: the half that completed its signature comes
      again in time, and, however late, the command and its halves come again. */
  lemma {:induction false} OneCommandExecutesTwice(keys: Keys, c: Arrival, a: Arrival, b: Arrival, again: Arrival,
                                                   c': Arrival, a': Arrival, b': Arrival)
    requires SignedCommand(keys, c, a, b) && SignedCommand(keys, c', a', b') && Replayed(c, a, b, c', a', b')
    requires again.frame == b.frame && !Expired(c.now, again.now, TEN_SECONDS)
    ensures var run := [c, a, b, again, c', a', b'];
            Executed(keys, run, 2) == Executed(keys, run, 3) == Executed(keys, run, 6) == Some(c.frame)
  {
    var run := [c, a, b, again, c', a', b'];
    var start := [] + [c] + [a] + [b];
    SignedCommandExecutes(keys, [], c, a, b);
    CopyExecutes(keys, c, a, b, again);
    hide After; hide Step; hide SignedCommand;
    SignedCommandExecutes(keys, start + [again], c', a', b');
    assert start[..2] == run[..2] && (start + [again])[..3] == run[..3];
    assert start + [again] + [c'] + [a'] + [b'] == run;
  }

  /** Such runs exist. */
  lemma {:induction false} SomeCommandExecutesTwice() returns (keys: Keys, run: seq<Arrival>)
    ensures |run| == 7
    ensures Executed(keys, run, 2) == Executed(keys, run, 3) == Executed(keys, run, 6) == Some(run[0].frame)
  {
    var zero := Zeros(HASH_SIZE);
    keys := Keys(_ => Some(zero), _ => Some(Expected(zero)), zero);
    var now := Time(1, 0);
    var c, a, b := Arrival(OfType(64), now, []), Arrival(OfType(128), now, []), Arrival(OfType(192), now, []);
    BlankFrame(64); BlankFrame(128); BlankFrame(192);
    DiffIsExact(now, now);
    assert !Expired(now, now, TEN_SECONDS);
    hide Executed; hide TypeOf; hide HashMsg; hide HashKey; hide Expired; hide OfType;
    assert SignedCommand(keys, c, a, b);
    OneCommandExecutesTwice(keys, c, a, b, b, c, a, b);
    run := [c, a, b, b, c, a, b];
  }

  /** A frame of zeros but for its protocol byte. */
  function OfType(protocol: uint8): Frame {
    Zeros(4) + [protocol] + Zeros(FRAME_SIZE - 5)
  }

  lemma {:induction false} BlankFrame(protocol: uint8)
    ensures Protocol(OfType(protocol)) == protocol
    ensures HashMsg(OfType(protocol)) == HashKey(OfType(protocol)) == Zeros(HASH_SIZE)
  {
    var f := OfType(protocol);
    assert forall k :: PAYLOAD <= k < COVERED ==> f[k] == 0;
    assert Payload(f) == Zeros(PAYLOAD_SIZE);
    assert HashKey(f) == Zeros(HASH_SIZE) && HashMsg(f) == Zeros(HASH_SIZE);
  }

  lemma {:induction false} CopyExecutes(keys: Keys, c: Arrival, a: Arrival, b: Arrival, again: Arrival)
    requires SignedCommand(keys, c, a, b) && again.frame == b.frame && !Expired(c.now, again.now, TEN_SECONDS)
    ensures var run := [] + [c] + [a] + [b];
            Executed(keys, run + [again], 3) == Some(c.frame) && After(keys, run + [again]).lastValid == Sequence(c.frame)
  {
    var run := [] + [c] + [a] + [b];
    var x := Step(keys, INITIAL, c).state;
    var y := Step(keys, x, a).state;
    SignedCommandSteps(keys, INITIAL, c, a, b);
    ExecutionRepeats(keys, y, b, again);
    ExecutionSetsFloor(keys, y, b);
    OneMore(keys, [], c); OneMore(keys, [] + [c], a); OneMore(keys, [] + [c] + [a], b); OneMore(keys, run, again);
    assert Step(keys, Step(keys, y, b).state, again) == Step(keys, y, b);
    hide *;
  }

  /** The time limit end to end, for a clock that is set and not set again: a signature frame for the
      pending command is judged by its key and its half if it arrives at most 10000 ms of the timer after
      the command, and ends the command from 10004 ms on, up to the wrap of the unit count. */
  lemma {:induction false} HalfInTime(keys: Keys, s: State, a: Arrival, sync: Time, stamp: int, t1: int, t2: int)
    requires |s.signature| == SIGNATURE_SIZE && HashMsg(a.frame) == s.hash
    requires TypeOf(a.frame) == Sig1 || TypeOf(a.frame) == Sig2
    requires sync.seconds != 0 && stamp <= t1 <= t2 && s.received == Report(sync, stamp, t1) && a.now == Report(sync, stamp, t2)
    ensures var f, o := a.frame, Step(keys, s, a);
            && (t2 - t1 <= 10000 ==>
                  o == if HashKey(f) != keys.keyHash then Outcome(s, None)
                       else if TypeOf(f) == Sig1 then Part1(keys, s, Half(f), a.memory) else Part2(keys, s, Half(f), a.memory))
            && (Late(t2 - t1) ==> o == Outcome(ReadyNext(s), None))
  {
    TenSecondBound(sync, stamp, t1, t2);
    hide Report; hide Expired;
  }

  /** Certainly later than the limit: from 10004 ms on, as long as the unit count does not wrap. */
  predicate Late(millis: int) {
    millis >= 10004 && 256 * millis <= 1000 * (WRAP32 - 1)
  }

  /** All arrivals of the run are stamped by one clock that was set before, at increasing timer readings. */
  ghost predicate Clocked(run: seq<Arrival>, sync: Time, stamp: int, timer: seq<int>) {
    && sync.seconds != 0 && |timer| == |run|
    && (forall k :: 0 <= k < |run| ==> stamp <= timer[k] && run[k].now == Report(sync, stamp, timer[k]))
    && (forall j, k :: 0 <= j < k < |run| ==> timer[j] <= timer[k])
  }

  /** No command is executed on a signature half that came late by the timer. */
  lemma {:induction false} LateHalvesExecuteNothing(keys: Keys, run: seq<Arrival>, sync: Time, stamp: int, timer: seq<int>)
    requires run != [] && Executed(keys, run, |run| - 1).Some? && Clocked(run, sync, stamp, timer)
    ensures exists i, j1, j2 ::
              && Justified(keys, run, i, j1, j2) && Executed(keys, run, |run| - 1) == Some(run[i].frame)
              && !Late(timer[j1] - timer[i]) && !Late(timer[j2] - timer[i])
  {
    OnlyAuthorisedCommandsExecute(keys, run);
    var i, j1, j2 :| Justified(keys, run, i, j1, j2) && Executed(keys, run, |run| - 1) == Some(run[i].frame);
    assert Supports(keys, run, i, j1, Sig1) && Supports(keys, run, i, j2, Sig2);
    TenSecondBound(sync, stamp, timer[i], timer[j1]);
    TenSecondBound(sync, stamp, timer[i], timer[j2]);
    hide Report; hide Expired;
  }
}
