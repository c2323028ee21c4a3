/** The crane client composed with an abstract crane over a network that loses, duplicates and reorders. */
module CraneSystem {
  import opened MachineTypes
  import opened CraneMachine
  import opened CraneRuns
  import opened CraneTest

  // ----- The system -----

  /** The client; the node it asked to connect to; everything the crane has emitted in this connection; and
      the commands the crane has accepted in it. Everything the client sent in this connection is `m.wire`.
      Any of it may arrive any number of times, in any order, or never. */
  datatype System = System(m: Machine, id: uint8, down: set<Packet>, log: seq<uint8>)

  datatype Move =
    | Local(e: Event)        // the client on its own
    | Arrive(p: Packet)      // a packet of the crane reaches the client
    | Accept(s: Send)        // an ACTION of the client reaches the crane, which was expecting it
    | Emit(p: Packet)        // the crane sends a packet

  const START: System := System(INITIAL, 0, {}, [])

  /** A SYN goes out: the start of a connection. */
  predicate Starts(s: System, e: Event) {
    (e.Open? && s.m.c.conn == Disconnected) || e.Test?
  }

  /** The crane may say anything at any time, except acknowledge what it has not accepted. */
  predicate Honest(s: System, p: Packet) {
    p.kind == STATUS && !Has(p.flags, NAK) ==> p.number <= |s.log|
  }

  predicate CanMove(s: System, v: Move) {
    match v
    case Local(e) => !e.Deliver? && Enabled(s.m, e)
    case Arrive(p) => p in s.down
    case Accept(x) => x in s.m.wire && x.to == s.id && x.packet.kind == ACTION && x.packet.number == |s.log| + 1
    case Emit(p) => Honest(s, p)
  }

  /** A new connection is with the node it names, whose log for it is empty; nothing of an earlier
      connection is still on the air. */
  function Next(s: System, v: Move): System {
    match v
    case Local(e) =>
      if Starts(s, e) then System(Step(s.m, e), if e.Open? then e.id else if e.Test? then e.id else 0, {}, [])
      else s.(m := Step(s.m, e))
    case Arrive(p) => s.(m := Step(s.m, Deliver(p)))
    case Accept(x) => s.(log := s.log + [LowByte(x.packet.data)])
    case Emit(p) => s.(down := s.down + {p})
  }

  // ----- What the queue may hold when a connection starts -----

  /** Nothing is left in the queue. */
  predicate Drained(acks: seq<uint16>) {
    acks == []
  }

  /** Something is left, and all of it looks like the acknowledgement of a first action. */
  predicate Deceptive(acks: seq<uint16>) {
    acks != [] && forall a :: a in acks ==> a == 1
  }

  /** No harm comes of it: see the theorems below. */
  predicate Harmless(acks: seq<uint16>) {
    !Deceptive(acks)
  }

  ghost function After(s: System, moves: seq<Move>): System {
    if moves == [] then s else Next(After(s, moves[..|moves| - 1]), moves[|moves| - 1])
  }

  /** The moves can be made one after the other from `s`. */
  ghost predicate CanRun(s: System, moves: seq<Move>) {
    moves != [] ==>
      CanRun(s, moves[..|moves| - 1]) && CanMove(After(s, moves[..|moves| - 1]), moves[|moves| - 1])
  }

  predicate StartsConnection(s: System, v: Move) {
    v.Local? && Starts(s, v.e)
  }

  /** None of the moves starts a connection. */
  ghost predicate WithinConnection(s: System, moves: seq<Move>) {
    moves != [] ==>
      WithinConnection(s, moves[..|moves| - 1])
      && !StartsConnection(After(s, moves[..|moves| - 1]), moves[|moves| - 1])
  }

  /** What was in the queue when the latest connection of a run started. */
  ghost function QueueAtStart(moves: seq<Move>): seq<uint16> {
    if moves == [] then [] else
      var t, v := After(START, moves[..|moves| - 1]), moves[|moves| - 1];
      if StartsConnection(t, v) then t.m.c.acks else QueueAtStart(moves[..|moves| - 1])
  }

  // ----- The invariant -----

  /** What the crane has accepted is what was acknowledged, or that and the pending command. */
  predicate ExactlyOnce(s: System) {
    s.log == s.m.acked || (s.m.pending.Some? && s.log == s.m.acked + [s.m.pending.value])
  }

  ghost predicate ClientInv(m: Machine) {
    Inv(m) && TestInv(m, 0)
  }

  /** No acknowledgement on its way to the client exceeds the log. */
  ghost predicate Truthful(s: System) {
    && (forall p :: p in s.down ==> Honest(s, p))
    && (forall a :: a in s.m.c.acks ==> a <= |s.log|)
    && (s.m.task.Drain? ==> s.m.task.best <= |s.log|)
  }

  /** The connection started with a queue that held a number above 1: the first action will fail on it. */
  ghost predicate Poisoned(m: Machine) {
    && m.acked == []
    && (m.c.conn == Disconnected || (m.task.Hangup? && m.task.why.AfterFailure?)
        || (exists a :: a in m.c.acks && a >= 2)
        || (m.task.Drain? && m.task.best >= 2))
  }

  ghost predicate SystemInv(s: System) {
    ClientInv(s.m) && ExactlyOnce(s) && (Truthful(s) || Poisoned(s.m))
  }

  lemma {:induction false} ClientKept(m: Machine, e: Event)
    requires ClientInv(m) && Enabled(m, e)
    ensures ClientInv(Step(m, e))
  {
    ConnectionKept(m, e); NamingKept(m, e); AccountKept(m, e); TestKept(m, e);
    hide Step; hide ConnectionInv; hide NamingInv; hide AccountInv; hide TestInv;
  }

  // ----- Steps of the crane and the network -----

  lemma {:induction false} AcceptKeeps(s: System, x: Send)
    requires SystemInv(s) && CanMove(s, Accept(x))
    ensures SystemInv(Next(s, Accept(x)))
    ensures Truthful(s) ==> Truthful(Next(s, Accept(x)))
  {
    var n := Next(s, Accept(x));
    assert Named(s.m, x.packet);
    hide ClientInv;
    assert s.log == s.m.acked;
    if Truthful(s) {
      forall p | p in n.down ensures Honest(n, p) { assert Honest(s, p); }
    }
  }

  lemma {:induction false} EmitKeeps(s: System, p: Packet)
    requires SystemInv(s) && CanMove(s, Emit(p))
    ensures SystemInv(Next(s, Emit(p)))
    ensures Truthful(s) ==> Truthful(Next(s, Emit(p)))
  {
    hide ClientInv;
    if Truthful(s) {
      var n := Next(s, Emit(p));
      forall q | q in n.down ensures Honest(n, q) { assert q == p || Honest(s, q); }
    }
  }

  lemma {:induction false} ArriveKeeps(s: System, p: Packet)
    requires SystemInv(s) && CanMove(s, Arrive(p))
    ensures SystemInv(Next(s, Arrive(p)))
    ensures Truthful(s) ==> Truthful(Next(s, Arrive(p)))
  {
    var n := Next(s, Arrive(p));
    ClientKept(s.m, Deliver(p));
    hide ClientInv;
    assert n.m.acked == s.m.acked && n.m.pending == s.m.pending && n.m.task == s.m.task;
    assert n.m.c.acks == s.m.c.acks || n.m.c.acks == s.m.c.acks + [p.number];
    if Poisoned(s.m) {
      if a :| a in s.m.c.acks && a >= 2 { assert a in n.m.c.acks; }
      assert n.m.c.conn == Handshake ==> s.m.c.conn == Handshake;
      assert Poisoned(n.m);
    }
    if Truthful(s) {
      assert Honest(s, p);
      forall q | q in n.down ensures Honest(n, q) { assert Honest(s, q); }
    }
  }

  // ----- Steps of the client -----

  /** The queue only loses numbers, or the read under way takes one over. */
  predicate Shrinks(m: Machine, n: Machine) {
    && (forall a :: a in n.c.acks ==> a in m.c.acks)
    && (n.task.Drain? ==> n.task.best == 0 || n.task.best in m.c.acks || (m.task.Drain? && n.task.best == m.task.best))
  }

  /** The three things a block of the command line task can do to the history of a connection: begin a
      command, get it acknowledged, or leave it alone. */
  predicate Progress(m: Machine, n: Machine) {
    || (n.acked == m.acked && n.pending == m.pending)
    || (n.acked == m.acked && m.pending == None)
    || (m.task.Drain? && m.c.acks == [] && m.c.conn == Connected && m.task.best == m.c.next == |m.acked| + 1
        && m.pending.Some? && n.acked == m.acked + [m.pending.value] && n.pending == None)
  }

  lemma {:induction false} GoProgresses(m: Machine)
    requires Inv(m)
    ensures Progress(m, Go(m)) && Shrinks(m, Go(m))
  {
    match m.task
    case Drain(k, packet, attempt, best) =>
    case Await(k, packet, attempt) =>
    case _ =>
  }

  lemma {:induction false} ResumeProgresses(m: Machine, waited: nat)
    requires Inv(m)
    ensures Progress(m, Step(m, Resume(waited))) && Shrinks(m, Step(m, Resume(waited)))
  {
    NotedKeepsInv(m, waited);
    ResumeGoes(m, waited);
    GoProgresses(Noted(m, waited));
    hide Go; hide Step; hide Inv;
  }

  lemma {:induction false} UserProgresses(m: Machine, e: Event)
    requires Inv(m) && Enabled(m, e) && (e.Close? || e.Command? || (e.Open? && m.c.conn != Disconnected))
    ensures Progress(m, Step(m, e)) && Shrinks(m, Step(m, e))
  {
  }

  lemma {:induction false} LocalProgresses(s: System, e: Event)
    requires Inv(s.m) && CanMove(s, Local(e)) && !Starts(s, e)
    ensures Progress(s.m, Step(s.m, e)) && Shrinks(s.m, Step(s.m, e))
  {
    hide Step; hide Inv; hide Progress; hide Shrinks;
    if e.Resume? { ResumeProgresses(s.m, e.waited); } else { UserProgresses(s.m, e); }
  }

  lemma {:induction false} LocalKeepsTruth(s: System, e: Event)
    requires SystemInv(s) && Truthful(s) && CanMove(s, Local(e)) && !Starts(s, e)
    ensures ExactlyOnce(Next(s, Local(e))) && Truthful(Next(s, Local(e)))
  {
    LocalProgresses(s, e);
    hide Step; hide ClientInv; hide Enabled;
    var n := Next(s, Local(e));
    forall p | p in n.down ensures Honest(n, p) { assert Honest(s, p); }
  }

  /** A poisoned connection stays poisoned until it fails. */
  lemma {:induction false} GoKeepsPoison(m: Machine)
    requires Inv(m) && Poisoned(m)
    ensures Poisoned(Go(m))
  {
    if a :| a in m.c.acks && a >= 2 {
      assert m.c.acks != [] && (a == m.c.acks[0] || a in m.c.acks[1..]);
    }
    match m.task
    case Drain(k, packet, attempt, best) =>
    case Await(k, packet, attempt) =>
    case Hangup(why) =>
    case _ =>
  }

  lemma {:induction false} ResumeKeepsPoison(m: Machine, waited: nat)
    requires Inv(m) && Poisoned(m)
    ensures Poisoned(Step(m, Resume(waited)))
  {
    NotedKeepsInv(m, waited);
    ResumeGoes(m, waited);
    assert Poisoned(Noted(m, waited));
    GoKeepsPoison(Noted(m, waited));
    hide *;
  }

  lemma {:induction false} UserKeepsPoison(m: Machine, e: Event)
    requires Inv(m) && Poisoned(m) && Enabled(m, e) && (e.Close? || e.Command? || (e.Open? && m.c.conn != Disconnected))
    ensures Poisoned(Step(m, e))
  {
  }

  lemma {:induction false} LocalKeepsPoison(s: System, e: Event)
    requires SystemInv(s) && Poisoned(s.m) && CanMove(s, Local(e)) && !Starts(s, e)
    ensures ExactlyOnce(Next(s, Local(e))) && Poisoned(Next(s, Local(e)).m)
  {
    assert Inv(s.m);
    LocalProgresses(s, e);
    hide Step; hide Inv; hide ClientInv; hide TestInv; hide Truthful;
    if e.Resume? { ResumeKeepsPoison(s.m, e.waited); } else { UserKeepsPoison(s.m, e); }
    assert Next(s, Local(e)).m == Step(s.m, e);
  }

  /** A connection that starts with a harmless queue satisfies the invariant, whatever was before. */
  lemma {:induction false} StartKeeps(s: System, e: Event)
    requires ClientInv(s.m) && CanMove(s, Local(e)) && Starts(s, e) && Harmless(s.m.c.acks)
    ensures SystemInv(Next(s, Local(e)))
    ensures Drained(s.m.c.acks) ==> Truthful(Next(s, Local(e)))
  {
    ClientKept(s.m, e);
    assert forall a :: a in s.m.c.acks ==> Queued(a);
    hide ClientInv;
  }

  lemma {:induction false} MoveKeeps(s: System, v: Move)
    requires SystemInv(s) && CanMove(s, v) && !StartsConnection(s, v)
    ensures SystemInv(Next(s, v))
    ensures Truthful(s) ==> Truthful(Next(s, v))
  {
    match v
    case Arrive(p) => ArriveKeeps(s, p);
    case Emit(p) => EmitKeeps(s, p);
    case Accept(x) => AcceptKeeps(s, x);
    case Local(e) =>
      ClientKept(s.m, e);
      if Truthful(s) { LocalKeepsTruth(s, e); } else { LocalKeepsPoison(s, e); }
      hide Step; hide ClientInv; hide Truthful; hide Poisoned; hide ExactlyOnce;
  }

  /** From any state that satisfies the invariant on, it holds as long as the connection lasts. */
  lemma {:induction false} ConnectionKeeps(s: System, moves: seq<Move>)
    requires SystemInv(s) && CanRun(s, moves) && WithinConnection(s, moves)
    ensures SystemInv(After(s, moves))
  {
    if moves != [] {
      var n := |moves| - 1;
      ConnectionKeeps(s, moves[..n]);
      MoveKeeps(After(s, moves[..n]), moves[n]);
      hide SystemInv; hide Truthful; hide CanMove;
    }
  }

  /** What is proved of the client alone holds in every run of the system. */
  lemma {:induction false} ClientInvHolds(moves: seq<Move>)
    requires CanRun(START, moves)
    ensures ClientInv(After(START, moves).m)
  {
    if moves == [] {
      assert ZerosFirst([], 0);
    } else {
      var n := |moves| - 1;
      var s := After(START, moves[..n]);
      ClientInvHolds(moves[..n]);
      match moves[n] {
        case Local(e) => ClientKept(s.m, e);
        case Arrive(p) => ClientKept(s.m, Deliver(p));
        case _ =>
      }
      hide Step; hide ClientInv;
    }
  }

  /** In every state of every run, whatever queues its earlier connections started with: if the latest one
      started with a harmless queue, the invariant holds. */
  lemma {:induction false} SystemInvHolds(moves: seq<Move>)
    requires CanRun(START, moves)
    ensures Harmless(QueueAtStart(moves)) ==> SystemInv(After(START, moves))
    ensures Drained(QueueAtStart(moves)) ==> Truthful(After(START, moves))
  {
    if moves == [] {
      assert ZerosFirst([], 0);
    } else {
      var n := |moves| - 1;
      var s, v := After(START, moves[..n]), moves[n];
      SystemInvHolds(moves[..n]);
      ClientInvHolds(moves[..n]);
      if Harmless(QueueAtStart(moves)) {
        if StartsConnection(s, v) { StartKeeps(s, v.e); } else { MoveKeeps(s, v); }
      }
      hide SystemInv; hide ClientInv; hide Truthful; hide CanMove; hide Next; hide Deceptive; hide Starts;
      DrainedIsHarmless(QueueAtStart(moves));
    }
  }

  lemma {:induction false} DrainedIsHarmless(acks: seq<uint16>)
    ensures Drained(acks) ==> Harmless(acks)
  {
  }

  // ----- Theorems -----

  /** Exactly-once, in-order delivery, in every state of every run whose latest connection did not start with
      a deceptive queue, whatever happened in the connections before it: the crane's log is the list of
      acknowledged commands, or that list and the pending one. So what crane_action acknowledged under
      number k is the k-th command the crane accepted. */
  lemma {:induction false} DeliveredExactlyOnce(moves: seq<Move>)
    requires CanRun(START, moves) && Harmless(QueueAtStart(moves))
    ensures var s := After(START, moves);
            && ExactlyOnce(s)
            && s.m.acked <= s.log && |s.log| <= |s.m.acked| + 1
            && forall k :: 0 <= k < |s.m.acked| ==> s.log[k] == s.m.acked[k]
  {
    SystemInvHolds(moves);
  }

  /** crane_action, which had sent its packet, returns 0 in this step. */
  predicate ReturnsZero(m: Machine, e: Event) {
    ReturnsAfterSending(m, e) && Step(m, e).result == 0
  }

  /** When crane_action returns 0, the command it sent is the one the crane accepted under its number. */
  lemma {:induction false} ZeroMeansAccepted(moves: seq<Move>, e: Event)
    requires CanRun(START, moves) && Harmless(QueueAtStart(moves)) && CanMove(After(START, moves), Local(e))
    ensures var s := After(START, moves);
            ReturnsZero(s.m, e) ==>
              && s.m.task.Drain? && s.m.pending.Some? && s.m.task.packet == ActionPacket(s.m.c.next, s.m.pending.value)
              && 1 <= s.m.c.next == |s.log| && s.log[s.m.c.next - 1] == s.m.pending.value
  {
    SystemInvHolds(moves);
    var s := After(START, moves);
    hide After; hide CanRun; hide Harmless; hide Poisoned; hide Truthful; hide TestInv; hide QueueAtStart;
    if ReturnsZero(s.m, e) {
      ZeroAcknowledges(s.m, e);
      assert e.Resume? && !Starts(s, e);
      MoveKeeps(s, Local(e));
      assert ExactlyOnce(Next(s, Local(e)));
    }
    hide Step; hide Enabled;
  }

  lemma {:induction false} ZeroAcknowledges(m: Machine, e: Event)
    requires Inv(m) && Enabled(m, e) && ReturnsZero(m, e)
    ensures e.Resume? && m.task.Drain? && m.pending.Some?
    ensures m.task.packet == ActionPacket(m.c.next, m.pending.value) && m.c.next == |m.acked| + 1
    ensures Step(m, e).acked == m.acked + [m.pending.value] && Step(m, e).pending == None
  {
    match m.task
    case Drain(k, packet, attempt, best) =>
    case Await(k, packet, attempt) =>
    case Hangup(why) =>
  }

  /** If the connection started with an empty queue, a connected client never reads an acknowledgement
      beyond its own sequence number; so only a CLOSE can make crane_action return -2. */
  lemma {:induction false} NoUnexpectedAcknowledgement(moves: seq<Move>)
    requires CanRun(START, moves) && Drained(QueueAtStart(moves))
    ensures var m := After(START, moves).m;
            && (m.task.Drain? && m.c.conn == Connected ==> m.task.best <= m.c.next)
            && (m.c.conn == Connected ==> forall a :: a in m.c.acks ==> a <= m.c.next)
  {
    SystemInvHolds(moves);
  }

  // ----- The automated test -----

  /** An action is called while the client is connected: it will send. */
  predicate Sends(s: System, v: Move) {
    v.Local? && v.e.Command? && s.m.c.conn == Connected
  }

  /** The latest connection was started by the test, and the command line has sent nothing in it since.
      (It only could if the crane answered after the test had given up the handshake.) */
  ghost predicate OfTest(moves: seq<Move>) {
    moves != [] &&
      var t, v := After(START, moves[..|moves| - 1]), moves[|moves| - 1];
      if StartsConnection(t, v) then v.e.Test? else OfTest(moves[..|moves| - 1]) && !Sends(t, v)
  }

  /** The test is under way or over, and its commands are the only ones of the connection. */
  ghost predicate TestOnly(m: Machine) {
    && (InTest(m.task) || m.task == Prompt || m.task == Hangup(ByUser))
    && m.acked <= Commands(13) && (m.pending.Some? ==> m.acked + [m.pending.value] <= Commands(13))
  }

  lemma {:induction false} UnderwayIsTestOnly(m: Machine)
    requires TestInv(m, 0) && InTest(m.task)
    ensures TestOnly(m)
  {
    WholeScript();
    CommandsGrow(At(m.task), 13);
  }

  lemma {:induction false} TestLeaves(m: Machine, e: Event)
    requires InTest(m.task) && Enabled(m, e) && !InTest(Step(m, e).task)
    ensures var n := Step(m, e); n.task == Prompt && n.acked == m.acked && n.pending == m.pending
  {
  }

  lemma {:induction false} AfterTest(m: Machine, e: Event)
    requires m.task == Prompt || m.task == Hangup(ByUser)
    requires Enabled(m, e) && !e.Test? && !(e.Open? && m.c.conn == Disconnected) && !(e.Command? && m.c.conn == Connected)
    ensures var n := Step(m, e);
            (n.task == Prompt || n.task == Hangup(ByUser)) && n.acked == m.acked && n.pending == m.pending
  {
  }

  lemma {:induction false} TestOnlyKept(m: Machine, e: Event)
    requires ClientInv(m) && TestOnly(m) && Enabled(m, e)
    requires !e.Test? && !(e.Open? && m.c.conn == Disconnected) && !(e.Command? && m.c.conn == Connected)
    ensures TestOnly(Step(m, e))
  {
    ClientKept(m, e);
    var n := Step(m, e);
    hide Step; hide InTest; hide Inv; hide TestInv;
    if InTest(n.task) {
      UnderwayIsTestOnly(n);
    } else if InTest(m.task) {
      TestLeaves(m, e);
    } else {
      AfterTest(m, e);
    }
  }

  lemma {:induction false} TestStarts(s: System, e: Event)
    requires CanMove(s, Local(e)) && e.Test?
    ensures TestOnly(Next(s, Local(e)).m)
  {
  }

  lemma {:induction false} TestOnlyHolds(moves: seq<Move>)
    requires CanRun(START, moves) && OfTest(moves)
    ensures TestOnly(After(START, moves).m)
  {
    var n := |moves| - 1;
    var s, v := After(START, moves[..n]), moves[n];
    if StartsConnection(s, v) {
      TestStarts(s, v.e);
    } else {
      TestOnlyHolds(moves[..n]);
      ClientInvHolds(moves[..n]);
      match v {
        case Local(e) => TestOnlyKept(s.m, e);
        case Arrive(p) => TestOnlyKept(s.m, Deliver(p));
        case _ =>
      }
      hide Step; hide TestOnly; hide ClientInv;
    }
  }

  /** During a test, and after it until the next connection starts, the crane has accepted a prefix of the
      script, at most one command longer than what was acknowledged. */
  lemma {:induction false} ExecutedIsPrefixOfScript(moves: seq<Move>)
    requires CanRun(START, moves) && OfTest(moves) && Harmless(QueueAtStart(moves))
    ensures var s := After(START, moves);
            s.m.acked <= s.log <= Commands(13) && |s.log| <= |s.m.acked| + 1
  {
    SystemInvHolds(moves);
    TestOnlyHolds(moves);
    hide After; hide CanRun; hide ClientInv; hide Truthful; hide Poisoned; hide OfTest; hide QueueAtStart;
  }

  /** One run after another is a run. */
  lemma {:induction false} RunsCompose(s: System, moves: seq<Move>, more: seq<Move>)
    requires CanRun(s, moves) && CanRun(After(s, moves), more)
    ensures CanRun(s, moves + more) && After(s, moves + more) == After(After(s, moves), more)
  {
    if more == [] {
      assert moves + more == moves;
    } else {
      var n := |more| - 1;
      hide Next; hide CanMove;
      assert (moves + more)[..|moves| + n] == moves + more[..n] && (moves + more)[|moves| + n] == more[n];
      RunsCompose(s, moves, more[..n]);
    }
  }

  lemma {:induction false} OneMoreOfTest(moves: seq<Move>, v: Move)
    requires OfTest(moves) && !StartsConnection(After(START, moves), v) && !Sends(After(START, moves), v)
    ensures OfTest(moves + [v]) && QueueAtStart(moves + [v]) == QueueAtStart(moves)
    ensures After(START, moves + [v]) == Next(After(START, moves), v)
  {
    assert (moves + [v])[..|moves|] == moves;
    hide Next; hide StartsConnection; hide Sends;
  }

  lemma {:induction false} LastMove(s: System, moves: seq<Move>)
    requires moves != [] && CanRun(s, moves) && WithinConnection(s, moves)
    ensures var n := |moves| - 1;
            && CanRun(s, moves[..n]) && WithinConnection(s, moves[..n])
            && CanMove(After(s, moves[..n]), moves[n]) && !StartsConnection(After(s, moves[..n]), moves[n])
  {
  }

  /** After a test that ended disconnected, as every test does whose handshake succeeded, the connection
      remains the test's until the next one starts. */
  lemma {:induction false} FinishedTestLasts(moves: seq<Move>, more: seq<Move>)
    requires CanRun(START, moves) && OfTest(moves) && After(START, moves).m.c.conn == Disconnected
    requires CanRun(After(START, moves), more) && WithinConnection(After(START, moves), more)
    ensures OfTest(moves + more) && QueueAtStart(moves + more) == QueueAtStart(moves)
    ensures After(START, moves + more).m.c.conn == Disconnected
  {
    hide *;
    if more == [] {
      assert moves + more == moves;
    } else {
      var n := |more| - 1;
      var s, v := After(START, moves + more[..n]), more[n];
      LastMove(After(START, moves), more);
      FinishedTestLasts(moves, more[..n]);
      RunsCompose(START, moves, more[..n]);
      StaysDisconnected(s, v);
      OneMoreOfTest(moves + more[..n], v);
      assert moves + more == (moves + more[..n]) + [v];
    }
  }

  lemma {:induction false} StaysDisconnected(s: System, v: Move)
    requires s.m.c.conn == Disconnected && CanMove(s, v) && !StartsConnection(s, v)
    ensures Next(s, v).m.c.conn == Disconnected && !Sends(s, v)
  {
    if v.Local? && Step(s.m, v.e).c.conn != Disconnected { OnlyTheUserReconnects(s.m, v.e); }
    if v.Arrive? && Step(s.m, Deliver(v.p)).c.conn != Disconnected { OnlyTheUserReconnects(s.m, Deliver(v.p)); }
    hide Step;
  }

  // ----- The condition on the queue is exact -----

  /** One move more that starts no connection. */
  lemma {:induction false} Extend(s: System, moves: seq<Move>, v: Move) returns (longer: seq<Move>)
    requires CanRun(s, moves) && CanMove(After(s, moves), v) && !StartsConnection(After(s, moves), v)
    ensures CanRun(s, longer) && After(s, longer) == Next(After(s, moves), v)
    ensures WithinConnection(s, moves) ==> WithinConnection(s, longer)
  {
    hide Next; hide CanMove; hide StartsConnection;
    longer := moves + [v];
    assert longer[..|moves|] == moves;
  }

  const GO := Local(Resume(0))
  const HELLO := Packet(CONNECT, SYN + ACK, 0, 0)

  /** A first action is reading acknowledgements, and every one still in the queue is a 1. */
  ghost predicate ReadsOnes(s: System, k: Caller, command: uint8) {
    && s.m.task == Drain(k, ActionPacket(1, command), 0, 1)
    && s.m.c.conn == Connected && s.m.c.next == 1 && s.m.acked == [] && s.log == []
    && forall i :: 0 <= i < |s.m.c.acks| ==> s.m.c.acks[i] == 1
  }

  lemma {:induction false} ReadsOn(s: System, k: Caller, command: uint8)
    requires ReadsOnes(s, k, command)
    ensures CanMove(s, GO) && !StartsConnection(s, GO)
    ensures s.m.c.acks != [] ==> ReadsOnes(Next(s, GO), k, command) && |Next(s, GO).m.c.acks| < |s.m.c.acks|
    ensures s.m.c.acks == [] ==> var t := Next(s, GO); t.m.result == 0 && t.m.acked == [command] && t.log == []
  {
  }

  /** The read drains old acknowledgements and takes them for its own. */
  lemma {:induction false} DrainsToSuccess(s: System, moves: seq<Move>, k: Caller, command: uint8) returns (all: seq<Move>)
    requires CanRun(s, moves) && ReadsOnes(After(s, moves), k, command)
    ensures CanRun(s, all) && (WithinConnection(s, moves) ==> WithinConnection(s, all))
    ensures var t := After(s, all); t.m.result == 0 && t.m.acked == [command] && t.log == []
    decreases |After(s, moves).m.c.acks|
  {
    hide After; hide CanRun; hide Next; hide ReadsOnes; hide WithinConnection;
    ReadsOn(After(s, moves), k, command);
    all := Extend(s, moves, GO);
    if After(s, moves).m.c.acks != [] { all := DrainsToSuccess(s, all, k, command); }
  }

  /** The node a connection is started with. */
  function Node(e: Event): uint8
    requires e.Open? || e.Test?
  {
    match e
    case Open(id) => id
    case Test(id) => id
  }

  /** Who sends the first action of that connection, and which. */
  function FirstCaller(e: Event): Caller {
    if e.Test? then Script(0) else Cli
  }

  function FirstCommand(e: Event): uint8 {
    if e.Test? then LIGHT_ON else FWD
  }

  /** The connection is just started, or its handshake has just been answered. */
  predicate Fresh(t: System, e: Event, conn: Conn)
    requires e.Open? || e.Test?
  {
    && t.m.task == (if e.Test? then Greeting(0) else Prompt)
    && t.m.acked == [] && t.log == [] && t.id == Node(e) && t.m.c.crane == Node(e)
    && t.m.c.conn == conn && t.m.c.next == if conn == Connected then 1 else 0
  }

  lemma {:induction false} Greets(t: System, e: Event)
    requires CanMove(t, Local(e)) && Starts(t, e)
    ensures var u := Next(t, Local(e)); Fresh(u, e, Handshake) && u.m.c.acks == t.m.c.acks
    ensures var c := Next(t, Local(e)).m.c; c.lastStatus == t.m.c.lastStatus && c.backlog == t.m.c.backlog
  {
  }

  lemma {:induction false} ShakesHands(t: System, e: Event)
    requires (e.Open? || e.Test?) && Fresh(t, e, Handshake)
    ensures var h := Next(t, Emit(HELLO));
            var u := Next(h, Arrive(HELLO));
            && CanMove(t, Emit(HELLO)) && CanMove(h, Arrive(HELLO)) && Fresh(u, e, Connected)
            && u.m.c == t.m.c.(conn := Connected, next := 1)
  {
  }

  /** The first action has sent its packet and waits. */
  predicate FirstWaits(t: System, e: Event) {
    var action := ActionPacket(1, FirstCommand(e));
    && t.m.task == Await(FirstCaller(e), action, 0) && t.m.acked == [] && t.log == [] && Send(t.id, action) in t.m.wire
  }

  lemma {:induction false} UserActs(t: System, e: Event)
    requires e.Open? && Fresh(t, e, Connected) && Node(e) != 0
    ensures var v := Local(Command(FWD));
            && CanMove(t, v) && !StartsConnection(t, v)
            && FirstWaits(Next(t, v), e) && Next(t, v).m.c == t.m.c && Next(t, v).id == t.id
  {
  }

  lemma {:induction false} TestActs(t: System, e: Event)
    requires e.Test? && Fresh(t, e, Connected) && Node(e) != 0
    ensures var u := Next(t, GO);
            var v := Next(u, GO);
            && CanMove(t, GO) && CanMove(u, GO) && !StartsConnection(t, GO) && !StartsConnection(u, GO)
            && FirstWaits(v, e) && v.m.c == t.m.c && v.id == t.id
  {
    assert SCRIPT[0] == Act(LIGHT_ON);
    assert Next(t, GO).m.task == Ready(0);
  }

  /** The handshake answered, and the first block of an action. */
  lemma {:induction false} ConnectsAndActs(s: System, moves: seq<Move>, e: Event) returns (all: seq<Move>)
    requires CanRun(s, moves) && (e.Open? || e.Test?) && Node(e) != 0 && Fresh(After(s, moves), e, Handshake)
    ensures CanRun(s, all) && (WithinConnection(s, moves) ==> WithinConnection(s, all))
    ensures var t, u := After(s, moves), After(s, all);
            FirstWaits(u, e) && u.m.c == t.m.c.(conn := Connected, next := 1) && u.id == t.id
  {
    hide After; hide CanRun; hide Next; hide CanMove; hide WithinConnection; hide Fresh; hide FirstWaits; hide Starts;
    FreshId(After(s, moves), e);
    ShakesHands(After(s, moves), e);
    all := Extend(s, moves, Emit(HELLO));
    all := Extend(s, all, Arrive(HELLO));
    FreshId(After(s, all), e);
    if e.Test? {
      TestActs(After(s, all), e);
      all := Extend(s, all, GO);
      all := Extend(s, all, GO);
    } else {
      UserActs(After(s, all), e);
      all := Extend(s, all, Local(Command(FWD)));
    }
  }

  lemma {:induction false} FreshId(t: System, e: Event)
    requires e.Open? || e.Test?
    ensures forall conn :: Fresh(t, e, conn) ==> t.id == Node(e)
  {
  }

  lemma {:induction false} TakesAOne(t: System, e: Event)
    requires (e.Open? || e.Test?) && FirstWaits(t, e) && t.m.c.conn == Connected && t.m.c.next == 1 && Deceptive(t.m.c.acks)
    ensures CanMove(t, GO) && !StartsConnection(t, GO) && ReadsOnes(Next(t, GO), FirstCaller(e), FirstCommand(e))
  {
    forall i | 0 <= i < |t.m.c.acks| ensures t.m.c.acks[i] == 1 { assert t.m.c.acks[i] in t.m.c.acks; }
  }

  /** If a new connection starts with a deceptive queue, its first action can be acknowledged although the
      crane has accepted nothing: exactly-once fails. */
  lemma {:induction false} DeceptiveQueueBreaksDelivery(s: System, e: Event) returns (moves: seq<Move>)
    requires CanMove(s, Local(e)) && Starts(s, e) && Node(e) != 0 && Deceptive(s.m.c.acks)
    ensures var t := Next(s, Local(e)); CanRun(t, moves) && WithinConnection(t, moves)
    ensures var t := After(Next(s, Local(e)), moves);
            t.m.result == 0 && t.m.acked == [FirstCommand(e)] && t.log == [] && !ExactlyOnce(t)
  {
    Greets(s, e);
    var r := Next(s, Local(e));
    assert After(r, []) == r && CanRun(r, []) && WithinConnection(r, []);
    hide After; hide CanRun; hide Next; hide WithinConnection; hide CanMove; hide FirstWaits; hide Starts;
    moves := ConnectsAndActs(r, [], e);
    TakesAOne(After(r, moves), e);
    moves := Extend(r, moves, GO);
    moves := DrainsToSuccess(r, moves, FirstCaller(e), FirstCommand(e));
  }

  /** Until the next connection starts, whatever happens, the crane's log is what was acknowledged or one
      command more. */
  ghost predicate ServedExactlyOnce(s: System) {
    forall moves :: CanRun(s, moves) && WithinConnection(s, moves) ==> ExactlyOnce(After(s, moves))
  }

  /** The condition on the queue is exact, after any history and for connections of either kind: a connection
      started now will be served exactly once, whatever happens in it, if and only if the queue is empty or
      holds something other than 1s. (Node 0 is never sent a command.) */
  lemma {:induction false} ExactlyOnceExactlyIfHarmless(before: seq<Move>, e: Event)
    requires CanRun(START, before) && CanMove(After(START, before), Local(e)) && Starts(After(START, before), e)
    ensures var s := After(START, before);
            Harmless(s.m.c.acks) || Node(e) == 0 <==> ServedExactlyOnce(Next(s, Local(e)))
  {
    var s := After(START, before);
    var t := Next(s, Local(e));
    ClientInvHolds(before);
    Greets(s, e);
    hide After; hide CanRun; hide ClientInv; hide SystemInv; hide WithinConnection; hide Next;
    if Harmless(s.m.c.acks) {
      StartKeeps(s, e);
      forall moves | CanRun(t, moves) && WithinConnection(t, moves) ensures ExactlyOnce(After(t, moves)) {
        ConnectionKeeps(t, moves);
        InvHasExactlyOnce(After(t, moves));
      }
    } else if Node(e) == 0 {
      StartsUnserved(s, e);
      forall moves | CanRun(t, moves) && WithinConnection(t, moves) ensures ExactlyOnce(After(t, moves)) {
        StaysUnserved(t, moves);
      }
    } else {
      var moves := DeceptiveQueueBreaksDelivery(s, e);
    }
  }

  lemma {:induction false} InvHasExactlyOnce(s: System)
    requires SystemInv(s)
    ensures ExactlyOnce(s)
  {
  }

  /** A connection with node 0: nothing is ever sent to be executed. */
  ghost predicate Unserved(s: System) {
    && s.m.c.crane == 0 && !Acting(s.m.task) && s.m.acked == [] && s.log == []
    && forall x :: x in s.m.wire ==> x.packet.kind != ACTION
  }

  lemma {:induction false} StartsUnserved(s: System, e: Event)
    requires CanMove(s, Local(e)) && Starts(s, e) && Node(e) == 0
    ensures Unserved(Next(s, Local(e)))
  {
  }

  lemma {:induction false} UnservedStep(m: Machine, e: Event)
    requires Enabled(m, e) && m.c.crane == 0 && !Acting(m.task) && !e.Test? && !(e.Open? && m.c.conn == Disconnected)
    ensures var n := Step(m, e);
            && n.c.crane == 0 && !Acting(n.task) && n.acked == m.acked
            && forall x :: x in n.wire ==> x in m.wire || x.packet.kind != ACTION
  {
    match e
    case Resume(w) =>
      ResumeGoes(m, w);
      UnservedBlock(Noted(m, w));
      hide Step; hide Go;
    case Deliver(p) => UnservedDelivery(m, p);
    case _ => hide Go;
  }

  lemma {:induction false} UnservedBlock(m: Machine)
    requires m.c.crane == 0 && !Acting(m.task)
    ensures var n := Go(m);
            && n.c.crane == 0 && !Acting(n.task) && n.acked == m.acked
            && forall x :: x in n.wire ==> x in m.wire || x.packet.kind != ACTION
  {
    hide Judge;
  }

  lemma {:induction false} UnservedDelivery(m: Machine, p: Packet)
    requires m.c.crane == 0
    ensures var n := Step(m, Deliver(p));
            && n.c.crane == 0 && n.task == m.task && n.acked == m.acked
            && forall x :: x in n.wire ==> x in m.wire || x.packet.kind != ACTION
  {
    hide Go; hide Begin;
  }

  lemma {:induction false} StaysUnserved(s: System, moves: seq<Move>)
    requires Unserved(s) && CanRun(s, moves) && WithinConnection(s, moves)
    ensures Unserved(After(s, moves)) && ExactlyOnce(After(s, moves))
  {
    if moves != [] {
      var n := |moves| - 1;
      var t := After(s, moves[..n]);
      StaysUnserved(s, moves[..n]);
      match moves[n] {
        case Local(e) => UnservedStep(t.m, e);
        case Arrive(p) => UnservedStep(t.m, Deliver(p));
        case _ =>
      }
      hide Step; hide Acting;
    }
  }

  /** A STATUS the crane repeats. */
  const AGAIN := Packet(STATUS, 0, 1, 0)

  lemma {:induction false} Acknowledges(t: System, id: uint8)
    requires FirstWaits(t, Open(id)) && t.m.c == Client(1, id, [], Connected, 0, 0) && t.id == id
    ensures var accept := Accept(Send(id, ActionPacket(1, FWD)));
            var u := Next(t, accept);
            var v := Next(u, Emit(AGAIN));
            var w := Next(v, Arrive(AGAIN));
            && CanMove(t, accept) && CanMove(u, Emit(AGAIN)) && CanMove(v, Arrive(AGAIN))
            && w.m.task == t.m.task && w.m.c == Client(1, id, [1], Connected, 1, 0) && AGAIN in w.down
  {
  }

  lemma {:induction false} Succeeds(t: System, id: uint8)
    requires t.m.task == Await(Cli, ActionPacket(1, FWD), 0)
    requires t.m.c == Client(1, id, [1], Connected, 1, 0) && AGAIN in t.down
    ensures var u := Next(t, GO);
            var v := Next(u, GO);
            && CanMove(t, GO) && CanMove(u, GO)
            && v.m.task == Prompt && v.m.c == Client(2, id, [], Connected, 1, 0) && AGAIN in v.down
  {
    assert [1][1..] == [];
    assert Next(t, GO).m.task == Drain(Cli, ActionPacket(1, FWD), 0, 1);
  }

  lemma {:induction false} LeavesBehind(t: System, id: uint8)
    requires t.m.task == Prompt && t.m.c == Client(2, id, [], Connected, 1, 0) && AGAIN in t.down
    ensures var u := Next(t, Arrive(AGAIN));
            var v := Next(u, Local(Close));
            var w := Next(v, GO);
            && CanMove(t, Arrive(AGAIN)) && CanMove(u, Local(Close)) && CanMove(v, GO)
            && w.m.task == Prompt && w.m.c.conn == Disconnected && w.m.c.acks == [1]
  {
    assert Next(t, Arrive(AGAIN)).m.c == Client(2, id, [1], Connected, 1, 0);
  }

  /** From the first block of an action to the prompt, with the queue empty again. */
  lemma {:induction false} ActsAlone(moves: seq<Move>, id: uint8) returns (all: seq<Move>)
    requires CanRun(START, moves)
    requires var t := After(START, moves);
             FirstWaits(t, Open(id)) && t.m.c == Client(1, id, [], Connected, 0, 0) && t.id == id
    ensures CanRun(START, all)
    ensures var t := After(START, all);
            t.m.task == Prompt && t.m.c == Client(2, id, [], Connected, 1, 0) && AGAIN in t.down
  {
    hide After; hide CanRun; hide Next; hide CanMove; hide WithinConnection;
    Acknowledges(After(START, moves), id);
    all := Extend(START, moves, Accept(Send(id, ActionPacket(1, FWD))));
    all := Extend(START, all, Emit(AGAIN));
    all := Extend(START, all, Arrive(AGAIN));
    Succeeds(After(START, all), id);
    all := Extend(START, all, GO);
    all := Extend(START, all, GO);
  }

  /** Such a queue is left behind by an ordinary connection: one action, one STATUS that is repeated
      after the action has returned, and a disconnect. */
  lemma {:induction false} DeceptiveQueueArises(id: uint8) returns (moves: seq<Move>)
    requires id != 0
    ensures CanRun(START, moves)
    ensures var m := After(START, moves).m;
            m.task == Prompt && m.c.conn == Disconnected && Deceptive(m.c.acks)
  {
    moves := OpensFirst(id);
    hide After; hide CanRun; hide Next; hide CanMove; hide WithinConnection;
    moves := ConnectsAndActs(START, moves, Open(id));
    moves := ActsAlone(moves, id);
    LeavesBehind(After(START, moves), id);
    moves := Extend(START, moves, Arrive(AGAIN));
    moves := Extend(START, moves, Local(Close));
    moves := Extend(START, moves, GO);
  }

  lemma {:induction false} OpensFirst(id: uint8) returns (moves: seq<Move>)
    ensures CanRun(START, moves) && Fresh(After(START, moves), Open(id), Handshake)
    ensures After(START, moves).m.c == Client(0, id, [], Handshake, 0, 0)
  {
    Greets(START, Open(id));
    moves := [Local(Open(id))];
    assert moves[..0] == [] && After(START, []) == START && CanRun(START, []);
  }
}
