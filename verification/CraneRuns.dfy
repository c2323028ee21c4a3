/** What holds over all runs of the crane client, under any packets whatever from the network. */
module CraneRuns {
  import opened MachineTypes
  import opened CraneMachine

  // ----- The connection -----

  predicate Waiting(t: Task) {
    t.Await? || t.Drain?
  }

  predicate Acting(t: Task) {
    Waiting(t) || (t.Hangup? && t.why.AfterFailure?)
  }

  /** A test has begun and its handshake has succeeded. */
  predicate Underway(t: Task) {
    match t
    case Ready(_) => true
    case Settle(_, _) => true
    case Await(Script(_), _, _) => true
    case Drain(Script(_), _, _, _) => true
    case Hangup(AfterFailure(Script(_), _)) => true
    case Hangup(ScriptDone) => true
    case _ => false
  }

  /** Numbers a STATUS can leave in the queue. */
  predicate Queued(a: uint16) {
    1 <= a <= 0xFFFE
  }

  ghost predicate ConnectionInv(m: Machine) {
    && (m.c.conn == Connected ==> m.c.next >= 1)
    && (m.c.conn == Handshake ==> m.c.next == 0 && !Acting(m.task) && !Underway(m.task))
    && |m.c.acks| <= QUEUE_SIZE && (forall a :: a in m.c.acks ==> Queued(a))
    && (m.task.Drain? ==> m.task.best == 0 || Queued(m.task.best))
    && (Waiting(m.task) ==> m.task.attempt < ATTEMPTS && m.task.packet.number >= 1)
    && (Waiting(m.task) ==> m.c.next == if m.c.conn == Connected then m.task.packet.number else 0)
  }

  lemma {:induction false} ConnectionKept(m: Machine, e: Event)
    requires ConnectionInv(m) && Enabled(m, e)
    ensures ConnectionInv(Step(m, e))
  {
    hide *;
    match e
    case Deliver(p) => DeliverKeepsConnection(m, p);
    case Resume(w) => ResumeKeepsConnection(m, w);
    case _ => UserKeepsConnection(m, e);
  }

  lemma {:induction false} UserKeepsConnection(m: Machine, e: Event)
    requires ConnectionInv(m) && Enabled(m, e) && !e.Deliver? && !e.Resume?
    ensures ConnectionInv(Step(m, e))
  {
  }

  lemma {:induction false} ResumeGoes(m: Machine, w: nat)
    ensures Step(m, Resume(w)) == Go(Noted(m, w))
  {
    hide Go;
  }

  lemma {:induction false} ResumeKeepsConnection(m: Machine, w: nat)
    requires ConnectionInv(m)
    ensures ConnectionInv(Step(m, Resume(w)))
  {
    ResumeGoes(m, w);
    GoKeepsConnection(Noted(m, w));
    hide *;
  }

  lemma {:induction false} DeliverKeepsConnection(m: Machine, p: Packet)
    requires ConnectionInv(m)
    ensures ConnectionInv(Step(m, Deliver(p)))
  {
  }

  lemma {:induction false} GoKeepsConnection(m: Machine)
    requires ConnectionInv(m)
    ensures ConnectionInv(Go(m))
  {
    match m.task
    case Ready(pos) =>
    case Await(k, packet, attempt) =>
    case Drain(k, packet, attempt, best) =>
    case Hangup(why) =>
    case _ =>
  }

  // ----- Numbers and commands -----

  /** An ACTION on the air is an acknowledged command under its own number, or the pending one. */
  predicate Named(m: Machine, p: Packet) {
    p.kind == ACTION ==>
      && 1 <= p.number <= |m.acked| + 1
      && (p.number <= |m.acked| ==> p == ActionPacket(p.number, m.acked[p.number - 1]))
      && (p.number == |m.acked| + 1 ==> m.pending.Some? && p == ActionPacket(p.number, m.pending.value))
  }

  ghost predicate NamingInv(m: Machine) {
    && (forall s :: s in m.wire ==> Named(m, s.packet))
    && (m.c.conn == Connected ==> m.c.next == |m.acked| + 1)
    && (m.c.conn == Handshake ==> m.acked == [] && m.pending == None)
    && (m.c.conn == Connected && !Acting(m.task) ==> m.pending == None)
    && (Waiting(m.task) ==> m.pending.Some? && |m.acked| < 0xFFFF)
    && (Waiting(m.task) ==> m.task.packet == ActionPacket(|m.acked| + 1, m.pending.value))
  }

  lemma {:induction false} NamingKept(m: Machine, e: Event)
    requires ConnectionInv(m) && NamingInv(m) && Enabled(m, e)
    ensures NamingInv(Step(m, e))
  {
    hide *;
    match e
    case Deliver(p) => DeliverKeepsNaming(m, p);
    case Resume(w) => ResumeKeepsNaming(m, w);
    case _ => UserKeepsNaming(m, e);
  }

  lemma {:induction false} UserKeepsNaming(m: Machine, e: Event)
    requires ConnectionInv(m) && NamingInv(m) && Enabled(m, e) && !e.Deliver? && !e.Resume?
    ensures NamingInv(Step(m, e))
  {
    if e.Command? {
      BeginKeepsNaming(m, Cli, e.command);
      hide NamingInv;
    } else {
      var n := Step(m, e);
      forall s | s in n.wire ensures Named(n, s.packet) {
        if s in m.wire { assert Named(m, s.packet); }
      }
    }
  }

  lemma {:induction false} ResumeKeepsNaming(m: Machine, w: nat)
    requires ConnectionInv(m) && NamingInv(m)
    ensures NamingInv(Step(m, Resume(w)))
  {
    forall s | s in m.wire ensures Named(Noted(m, w), s.packet) {
      assert Named(m, s.packet);
    }
    ResumeGoes(m, w);
    GoKeepsNaming(Noted(m, w));
    hide *;
  }

  lemma {:induction false} DeliverKeepsNaming(m: Machine, p: Packet)
    requires ConnectionInv(m) && NamingInv(m)
    ensures NamingInv(Step(m, Deliver(p)))
  {
    var n := Step(m, Deliver(p));
    forall s | s in n.wire ensures Named(n, s.packet) {
      if s in m.wire { assert Named(m, s.packet); }
    }
  }

  lemma {:induction false} GoKeepsNaming(m: Machine)
    requires ConnectionInv(m) && NamingInv(m)
    ensures NamingInv(Go(m))
  {
    match m.task
    case Ready(pos) =>
      if pos < |SCRIPT| && SCRIPT[pos].Act? {
        BeginKeepsNaming(m, Script(pos), SCRIPT[pos].command);
        hide NamingInv;
      }
    case Drain(k, packet, attempt, best) =>
      if m.c.acks == [] {
        JudgeKeepsNaming(m, k, packet, attempt, best);
        hide NamingInv;
      }
    case _ =>
  }

  lemma {:induction false} BeginKeepsNaming(m: Machine, k: Caller, command: uint8)
    requires ConnectionInv(m) && NamingInv(m) && !Acting(m.task)
    ensures NamingInv(Begin(m, k, command))
  {
    var n := Begin(m, k, command);
    forall s | s in n.wire ensures Named(n, s.packet) {
      if s in m.wire { assert Named(m, s.packet); }
    }
  }

  lemma {:induction false} JudgeKeepsNaming(m: Machine, k: Caller, packet: Packet, attempt: nat, ack: uint16)
    requires ConnectionInv(m) && NamingInv(m) && m.task == Drain(k, packet, attempt, ack)
    ensures NamingInv(Judge(m, k, packet, attempt, ack))
  {
    var n := Judge(m, k, packet, attempt, ack);
    forall s | s in n.wire ensures Named(n, s.packet) {
      if s in m.wire { assert Named(m, s.packet); }
    }
  }

  // ----- Transmissions of one action -----

  /** From `mark` on the wire holds 1 + empties copies of the action packet, and nothing else. */
  ghost predicate Copies(m: Machine, packet: Packet, end: nat) {
    && m.mark + 1 + m.empties == end <= |m.wire|
    && forall i :: m.mark <= i < end ==> m.wire[i].packet == packet
  }

  ghost predicate AccountInv(m: Machine) {
    match m.task
    case Await(_, packet, attempt) => packet.kind == ACTION && Copies(m, packet, |m.wire|) && m.empties <= attempt
    case Drain(_, packet, attempt, _) => packet.kind == ACTION && Copies(m, packet, |m.wire|) && m.empties <= attempt
    case Hangup(AfterFailure(_, code)) =>
      code != 0 && m.mark < |m.wire| - 1 && m.wire[m.mark].packet.kind == ACTION
      && Copies(m, m.wire[m.mark].packet, |m.wire| - 1) && m.empties <= ATTEMPTS
      && m.wire[|m.wire| - 1].packet.kind == CLOSE
    case _ => true
  }

  lemma {:induction false} AccountKept(m: Machine, e: Event)
    requires ConnectionInv(m) && AccountInv(m) && Enabled(m, e)
    ensures AccountInv(Step(m, e))
  {
    hide *;
    match e
    case Deliver(p) => DeliverKeepsAccount(m, p);
    case Resume(w) => ResumeKeepsAccount(m, w);
    case _ => UserKeepsAccount(m, e);
  }

  /** No packet makes the client send anything while an action is under way. */
  lemma {:induction false} DeliverKeepsAccount(m: Machine, p: Packet)
    requires ConnectionInv(m) && AccountInv(m)
    ensures AccountInv(Step(m, Deliver(p)))
  {
    var n := Step(m, Deliver(p));
    assert n.task == m.task && n.mark == m.mark && n.empties == m.empties;
    assert Acting(m.task) ==> n.wire == m.wire + [];
  }

  lemma {:induction false} UserKeepsAccount(m: Machine, e: Event)
    requires Enabled(m, e) && !e.Deliver? && !e.Resume?
    ensures AccountInv(Step(m, e))
  {
    if e.Command? {
      BeginKeepsAccount(m, Cli, e.command);
      hide AccountInv;
    }
  }

  lemma {:induction false} ResumeKeepsAccount(m: Machine, w: nat)
    requires ConnectionInv(m) && AccountInv(m) && Enabled(m, Resume(w))
    ensures AccountInv(Step(m, Resume(w)))
  {
    ResumeGoes(m, w);
    GoKeepsAccount(Noted(m, w));
    hide Go; hide Step;
  }

  lemma {:induction false} BeginKeepsAccount(m: Machine, k: Caller, command: uint8)
    requires !Acting(m.task)
    ensures AccountInv(Begin(m, k, command))
  {
  }

  lemma {:induction false} GoKeepsAccount(m: Machine)
    requires ConnectionInv(m) && AccountInv(m) && m.task != Prompt
    ensures AccountInv(Go(m))
  {
    match m.task
    case Ready(pos) =>
      if pos < |SCRIPT| && SCRIPT[pos].Act? {
        BeginKeepsAccount(m, Script(pos), SCRIPT[pos].command);
        hide AccountInv;
      }
    case Drain(k, packet, attempt, best) =>
      if m.c.acks == [] {
        JudgeKeepsAccount(m, k, packet, attempt, best);
        hide AccountInv;
      }
    case _ =>
  }

  lemma {:induction false} JudgeKeepsAccount(m: Machine, k: Caller, packet: Packet, attempt: nat, ack: uint16)
    requires ConnectionInv(m) && AccountInv(m) && m.task == Drain(k, packet, attempt, ack)
    ensures AccountInv(Judge(m, k, packet, attempt, ack))
  {
    if ack == 0 {
      var sent := Transmit(m, packet).(empties := m.empties + 1);
      assert Copies(sent, packet, |sent.wire|);
      RetryKeepsAccount(sent, k, packet, attempt);
    } else {
      RetryKeepsAccount(m, k, packet, attempt);
    }
  }

  lemma {:induction false} RetryKeepsAccount(m: Machine, k: Caller, packet: Packet, attempt: nat)
    requires packet.kind == ACTION && Copies(m, packet, |m.wire|) && m.empties <= attempt + 1 <= ATTEMPTS
    ensures AccountInv(Retry(m, k, packet, attempt)) && AccountInv(Leave(m, AfterFailure(k, -2)))
  {
  }

  // ----- What a read takes from the queue -----

  /** `best` is the largest of the numbers, and 0 exactly if there are none. */
  predicate IsMaximum(best: uint16, numbers: seq<uint16>) {
    && (best == 0 <==> numbers == [])
    && (best != 0 ==> best in numbers)
    && forall a :: a in numbers ==> a <= best
  }

  ghost predicate ReadInv(m: Machine) {
    m.task.Drain? ==> IsMaximum(m.task.best, m.drained)
  }

  lemma {:induction false} ReadKept(m: Machine, e: Event)
    requires ConnectionInv(m) && ReadInv(m) && Enabled(m, e)
    ensures ReadInv(Step(m, e))
  {
    if e.Resume? {
      ResumeGoes(m, e.waited);
      var w := Noted(m, e.waited);
      assert Waiting(m.task) && m.c.acks != [] ==> Queued(m.c.acks[0]);
      GoKeepsRead(w);
      hide Go; hide Step;
    }
  }

  lemma {:induction false} GoKeepsRead(m: Machine)
    requires ReadInv(m) && (m.c.acks != [] ==> Queued(m.c.acks[0]))
    ensures ReadInv(Go(m))
  {
  }

  // ----- Where the client sends -----

  /** The node this connection was opened with: the first packet is the SYN. */
  function Target(m: Machine): uint8
    requires m.wire != []
  {
    m.wire[0].to
  }

  /** Everything goes to that node, until the crane closes; then everything goes to node 0. */
  ghost predicate DestinationInv(m: Machine) {
    && (m.wire == [] ==> m.c.crane == 0 && m.c.conn == Disconnected && !Acting(m.task))
    && (m.wire != [] ==>
          && (m.c.crane == Target(m) || (m.c.crane == 0 && m.c.conn == Disconnected))
          && (forall s :: s in m.wire ==> s.to == Target(m) || (s.to == 0 == m.c.crane))
          && (forall i, j :: 0 <= i < j < |m.wire| && m.wire[j].to == Target(m) ==> m.wire[i].to == Target(m))
          && (Acting(m.task) ==> m.mark < |m.wire| && m.wire[m.mark].to == Target(m) != 0))
  }

  lemma {:induction false} TransmitKeepsDestination(m: Machine, packet: Packet)
    requires DestinationInv(m)
    ensures DestinationInv(Transmit(m, packet))
  {
    var n := Transmit(m, packet);
    assert m.wire != [] ==> Target(n) == Target(m);
  }

  lemma {:induction false} BeginKeepsDestination(m: Machine, k: Caller, command: uint8)
    requires DestinationInv(m) && !Acting(m.task)
    ensures DestinationInv(Begin(m, k, command))
  {
    if m.c.conn == Connected && m.c.crane != 0 {
      TransmitKeepsDestination(m, ActionPacket(m.c.next, command));
    }
  }

  lemma {:induction false} DeliverKeepsDestination(m: Machine, p: Packet)
    requires DestinationInv(m)
    ensures DestinationInv(Step(m, Deliver(p)))
  {
    if p.kind == CONNECT && Opens(m.c, p) {
      TransmitKeepsDestination(m, Answer(m.c.crane, p).packet);
    } else {
      assert Step(m, Deliver(p)).wire == m.wire;
    }
  }

  lemma {:induction false} UserKeepsDestination(m: Machine, e: Event)
    requires DestinationInv(m) && Enabled(m, e) && !e.Deliver? && !e.Resume?
    ensures DestinationInv(Step(m, e))
  {
    if e.Command? {
      BeginKeepsDestination(m, Cli, e.command);
      hide DestinationInv;
    } else if e.Close? {
      TransmitKeepsDestination(m, Packet(CLOSE, 0, m.c.next, 0));
    }
  }

  lemma {:induction false} JudgeKeepsDestination(m: Machine, k: Caller, packet: Packet, attempt: nat, ack: uint16)
    requires DestinationInv(m) && m.task == Drain(k, packet, attempt, ack)
    ensures DestinationInv(Judge(m, k, packet, attempt, ack))
  {
    var sent := Transmit(m, packet);
    var closing := Packet(CLOSE, 0, m.c.next, 0);
    TransmitKeepsDestination(m, packet);
    TransmitKeepsDestination(m, closing);
    TransmitKeepsDestination(sent, closing);
  }

  lemma {:induction false} GoKeepsDestination(m: Machine)
    requires DestinationInv(m)
    ensures DestinationInv(Go(m))
  {
    match m.task
    case Ready(pos) =>
      if pos < |SCRIPT| && SCRIPT[pos].Act? {
        BeginKeepsDestination(m, Script(pos), SCRIPT[pos].command);
        hide DestinationInv;
      } else if pos >= |SCRIPT| {
        TransmitKeepsDestination(m, Packet(CLOSE, 0, m.c.next, 0));
      }
    case Drain(k, packet, attempt, best) =>
      if m.c.acks == [] {
        JudgeKeepsDestination(m, k, packet, attempt, best);
        hide DestinationInv;
      }
    case _ =>
  }

  lemma {:induction false} DestinationKept(m: Machine, e: Event)
    requires DestinationInv(m) && Enabled(m, e)
    ensures DestinationInv(Step(m, e))
  {
    match e
    case Deliver(p) => DeliverKeepsDestination(m, p);
    case Resume(w) =>
      ResumeGoes(m, w);
      GoKeepsDestination(Noted(m, w));
      hide Go; hide Step;
    case _ => UserKeepsDestination(m, e);
  }

  // ----- All runs -----

  ghost predicate Inv(m: Machine) {
    ConnectionInv(m) && NamingInv(m) && AccountInv(m)
  }

  lemma {:induction false} InvHolds(run: seq<Event>)
    requires IsRun(run)
    ensures Inv(Exec(run))
  {
    if run != [] {
      var n := |run| - 1;
      InvHolds(run[..n]);
      ConnectionKept(Exec(run[..n]), run[n]);
      NamingKept(Exec(run[..n]), run[n]);
      AccountKept(Exec(run[..n]), run[n]);
    }
  }

  lemma {:induction false} ReachableInv(m: Machine)
    requires Reachable(m)
    ensures Inv(m)
  {
    var run :| IsRun(run) && Exec(run) == m;
    InvHolds(run);
  }

  lemma {:induction false} TrailHolds(run: seq<Event>)
    requires IsRun(run)
    ensures ReadInv(Exec(run)) && DestinationInv(Exec(run))
  {
    if run != [] {
      var n := |run| - 1;
      InvHolds(run[..n]);
      TrailHolds(run[..n]);
      ReadKept(Exec(run[..n]), run[n]);
      DestinationKept(Exec(run[..n]), run[n]);
      hide Step; hide ReadInv; hide DestinationInv;
    }
  }

  lemma {:induction false} ReachableTrail(m: Machine)
    requires Reachable(m)
    ensures ReadInv(m) && DestinationInv(m)
  {
    var run :| IsRun(run) && Exec(run) == m;
    TrailHolds(run);
  }

  lemma {:induction false} ReachableStep(m: Machine, e: Event)
    requires Reachable(m) && Enabled(m, e)
    ensures Reachable(Step(m, e))
  {
    var run :| IsRun(run) && Exec(run) == m;
    RunExtends(run, e);
  }

  /** In every reachable state: connected means a number in 1..0xFFFF, handshake means 0, and the queue
      holds at most eight values, none of them 0 or 0xFFFF. */
  lemma {:induction false} ConnectionStates(m: Machine)
    requires Reachable(m)
    ensures m.c.conn == Connected ==> 1 <= m.c.next <= 0xFFFF && m.c.next == |m.acked| + 1
    ensures m.c.conn == Handshake ==> m.c.next == 0
    ensures |m.c.acks| <= 8 && forall a :: a in m.c.acks ==> 1 <= a <= 0xFFFE
  {
    ReachableInv(m);
  }

  /** Two ACTIONs under one number. */
  predicate SameNumber(p: Packet, q: Packet) {
    p.kind == q.kind == ACTION && p.number == q.number
  }

  /** In one connection a sequence number never names two commands: ACTION packets with one number
      are one packet, whoever they were sent to and however often. */
  lemma {:induction false} NumberNamesOneCommand(m: Machine)
    requires Reachable(m)
    ensures forall s, t :: s in m.wire && t in m.wire && SameNumber(s.packet, t.packet) ==> s.packet == t.packet
  {
    ReachableInv(m);
    hide Reachable; hide ConnectionInv; hide AccountInv;
    forall s, t | s in m.wire && t in m.wire && SameNumber(s.packet, t.packet) ensures s.packet == t.packet {
      assert Named(m, s.packet) && Named(m, t.packet);
    }
  }

  /** How a step may change the sequence number: not at all, to 0 at the end or the start of a connection,
      to 1 by a handshake, or to the next one, without wrapping, by an acknowledgement. */
  predicate Counts(m: Machine, n: Machine) {
    || n.c.next == m.c.next
    || n.c.next == 0
    || (n.c.next == 1 && m.c.conn == Handshake && n.c.conn == Connected)
    || (n.c.next == m.c.next + 1 <= 0xFFFF && m.task.Drain? && n.acked == m.acked + [LowByte(m.task.packet.data)])
  }

  lemma {:induction false} GoCounts(m: Machine)
    requires ConnectionInv(m)
    ensures Counts(m, Go(m))
  {
  }

  lemma {:induction false} StepCounts(m: Machine, e: Event)
    requires ConnectionInv(m) && Enabled(m, e)
    ensures Counts(m, Step(m, e))
  {
    if e.Resume? {
      ResumeGoes(m, e.waited);
      GoCounts(Noted(m, e.waited));
      hide Go; hide Step; hide ConnectionInv;
    } else {
      OthersCount(m, e);
    }
  }

  lemma {:induction false} OthersCount(m: Machine, e: Event)
    requires ConnectionInv(m) && Enabled(m, e) && !e.Resume?
    ensures Counts(m, Step(m, e))
  {
  }

  /** The sequence number never wraps, and the guard against 0xFFFF never fires. */
  lemma {:induction false} NumberNeverWraps(m: Machine, e: Event)
    requires Reachable(m) && Enabled(m, e)
    ensures Counts(m, Step(m, e))
    ensures m.task.Drain? ==> m.task.best != 0xFFFF
  {
    ReachableInv(m);
    StepCounts(m, e);
    hide Step; hide Reachable;
  }

  // ----- One action -----

  /** crane_action returns in this step. */
  predicate Returns(m: Machine, e: Event)
    requires Enabled(m, e)
  {
    var begins := e.Command? || (e.Resume? && m.task.Ready? && m.task.pos < |SCRIPT| && SCRIPT[m.task.pos].Act?);
    (Acting(m.task) || begins) && !Acting(Step(m, e).task)
  }

  /** An empty read sends the packet again; a read that got something does not. */
  lemma {:induction false} EmptyReadsRetransmit(m: Machine, e: Event)
    requires Reachable(m) && Enabled(m, e) && Acting(m.task) && Acting(Step(m, e).task)
    ensures var n := Step(m, e);
            var empty := m.task.Drain? && e.Resume? && m.c.acks == [] && m.task.best == 0;
            n.empties == m.empties + (if empty then 1 else 0) && n.mark == m.mark
  {
    ReachableInv(m);
  }

  /** crane_action, which had sent its packet, returns in this step. */
  predicate ReturnsAfterSending(m: Machine, e: Event) {
    Acting(m.task) && !Acting(Step(m, e).task)
  }

  /** The action that has just returned has sent exactly one ACTION more than it had empty reads, all one
      packet: at most five of them and no CLOSE if it returned 0, at most six and then one CLOSE if not. */
  ghost predicate Accounted(n: Machine) {
    var end := if n.result == 0 then |n.wire| else |n.wire| - 1;
    && n.mark < |n.wire| && n.wire[n.mark].packet.kind == ACTION && Copies(n, n.wire[n.mark].packet, end)
    && 1 + n.empties <= (if n.result == 0 then 5 else 6)
    && (n.result != 0 ==> n.wire[end].packet.kind == CLOSE)
  }

  /** An action that began by sending has, when it returns, accounted for its packets by its empty reads. */
  lemma {:induction false} TransmissionsOfAnAction(m: Machine, e: Event)
    requires Reachable(m) && Enabled(m, e)
    ensures ReturnsAfterSending(m, e) ==> Accounted(Step(m, e)) && Step(m, e).empties == m.empties
  {
    ReachableInv(m);
    hide *;
    if ReturnsAfterSending(m, e) { ReturnIsAccounted(m, e); }
  }

  lemma {:induction false} ReturnIsAccounted(m: Machine, e: Event)
    requires Inv(m) && Enabled(m, e) && ReturnsAfterSending(m, e)
    ensures Accounted(Step(m, e)) && Step(m, e).empties == m.empties
  {
    hide NamingInv;
    match m.task
    case Drain(k, packet, attempt, best) =>
    case Hangup(why) =>
    case Await(k, packet, attempt) =>
  }

  /** Where those packets went: the first to the node the connection is with, and so on until the crane has
      closed; everything after that to node 0. If the action returned 0, all of them to that node. */
  ghost predicate Routed(n: Machine) {
    && n.wire != [] && n.mark < |n.wire| && n.wire[n.mark].to == Target(n) != 0
    && (forall i :: n.mark <= i < |n.wire| ==> n.wire[i].to == Target(n) || n.wire[i].to == 0)
    && (forall i, j :: n.mark <= i < j < |n.wire| && n.wire[i].to == 0 ==> n.wire[j].to == 0)
    && (n.result == 0 ==> forall i :: n.mark <= i < |n.wire| ==> n.wire[i].to == Target(n))
  }

  lemma {:induction false} DestinationsOfAnAction(m: Machine, e: Event)
    requires Reachable(m) && Enabled(m, e)
    ensures ReturnsAfterSending(m, e) ==> Routed(Step(m, e))
  {
    if ReturnsAfterSending(m, e) {
      var n := Step(m, e);
      ReachableTrail(m);
      ReachableStep(m, e);
      ReachableTrail(n);
      ReturnKeepsMark(m, e);
      FailureDisconnects(m, e);
      hide Step; hide Reachable; hide Inv;
      forall i | 0 <= i < |n.wire| ensures n.wire[i].to == Target(n) || n.wire[i].to == 0 == n.c.crane {
        assert n.wire[i] in n.wire;
      }
    }
  }

  lemma {:induction false} ReturnKeepsMark(m: Machine, e: Event)
    requires Enabled(m, e) && Acting(m.task) && !Acting(Step(m, e).task)
    ensures var n := Step(m, e); n.mark == m.mark && n.wire == m.wire
  {
  }

  /** crane_action has returned, from `m` to `n`: it returned 0 exactly if the client is connected, and exactly
      if one more command of the connection is acknowledged. */
  ghost predicate Settled(m: Machine, n: Machine) {
    && (n.result == 0 <==> n.c.conn == Connected)
    && (n.result == 0 <==> m.pending.Some? && n.acked == m.acked + [m.pending.value])
    && (n.result != 0 ==> n.acked == m.acked)
  }

  lemma {:induction false} RefusalSettles(m: Machine, k: Caller, command: uint8)
    ensures !Acting(Begin(m, k, command).task) ==> Settled(m, Begin(m, k, command))
  {
  }

  lemma {:induction false} JudgementSettles(m: Machine, k: Caller, packet: Packet, attempt: nat, ack: uint16)
    requires ConnectionInv(m) && NamingInv(m) && m.task == Drain(k, packet, attempt, ack)
    ensures !Acting(Judge(m, k, packet, attempt, ack).task) ==> Settled(m, Judge(m, k, packet, attempt, ack))
  {
  }

  lemma {:induction false} BlockSettles(m: Machine)
    requires ConnectionInv(m) && NamingInv(m) && AccountInv(m)
    requires Acting(m.task) || (m.task.Ready? && m.task.pos < |SCRIPT| && SCRIPT[m.task.pos].Act?)
    ensures !Acting(Go(m).task) ==> Settled(m, Go(m))
  {
    match m.task
    case Ready(pos) => RefusalSettles(m, Script(pos), SCRIPT[pos].command); hide Settled;
    case Drain(k, packet, attempt, best) =>
      if m.c.acks == [] { JudgementSettles(m, k, packet, attempt, best); }
      hide Settled;
    case _ =>
  }

  lemma {:induction false} NotedKeepsInv(m: Machine, w: nat)
    requires Inv(m)
    ensures Inv(Noted(m, w))
  {
    forall s | s in m.wire ensures Named(Noted(m, w), s.packet) {
      assert Named(m, s.packet);
    }
  }

  /** crane_action returns 0 exactly when it leaves the client connected, and exactly when one more command
      of this connection is acknowledged. */
  lemma {:induction false} FailureDisconnects(m: Machine, e: Event)
    requires Reachable(m) && Enabled(m, e) && Returns(m, e)
    ensures Settled(m, Step(m, e))
  {
    ReachableInv(m);
    hide Reachable; hide Inv; hide Settled;
    match e
    case Resume(w) =>
      NotedKeepsInv(m, w);
      ResumeGoes(m, w);
      InvParts(Noted(m, w));
      BlockSettles(Noted(m, w));
      hide Step; hide Go; hide NamingInv;
      SettledFromNoted(m, w, Go(Noted(m, w)));
    case Command(command) => RefusalSettles(m, Cli, command);
    case _ =>
  }

  lemma {:induction false} InvParts(m: Machine)
    requires Inv(m)
    ensures ConnectionInv(m) && NamingInv(m) && AccountInv(m)
  {
  }

  lemma {:induction false} SettledFromNoted(m: Machine, w: nat, n: Machine)
    ensures Settled(Noted(m, w), n) <==> Settled(m, n)
  {
  }

  /** Once disconnected, only the command line task can start a connection, and only with a handshake. */
  lemma {:induction false} OnlyTheUserReconnects(m: Machine, e: Event)
    requires m.c.conn == Disconnected && Enabled(m, e) && Step(m, e).c.conn != Disconnected
    ensures (e.Open? || e.Test?) && Step(m, e).c.conn == Handshake
    ensures Step(m, e).acked == [] && Step(m, e).pending == None && Step(m, e).c.next == 0
  {
  }

  /** An action whose connection the crane has closed goes on disconnected, without any destination. */
  predicate Abandoned(m: Machine) {
    m.c.conn == Disconnected && m.c.crane == 0 && Acting(m.task)
  }

  lemma {:induction false} AbandonedStep(m: Machine, e: Event)
    requires Reachable(m) && Enabled(m, e) && Abandoned(m)
    ensures var n := Step(m, e);
            && n.c.conn == Disconnected && n.c.crane == 0 && n.acked == m.acked && (Acting(n.task) || n.result != 0)
            && m.wire <= n.wire && forall i :: |m.wire| <= i < |n.wire| ==> n.wire[i].to == 0
  {
    ReachableInv(m);
    hide Reachable; hide NamingInv; hide Step; hide Go; hide AccountInv;
    match e
    case Resume(w) =>
      ResumeGoes(m, w);
      ClockKeepsAccount(m, w);
      AbandonedBlock(Noted(m, w));
    case Deliver(p) => AbandonedReceive(m, p);
    case _ =>
  }

  lemma {:induction false} ClockKeepsAccount(m: Machine, w: nat)
    requires ConnectionInv(m) && AccountInv(m)
    ensures ConnectionInv(Noted(m, w)) && AccountInv(Noted(m, w))
  {
  }

  lemma {:induction false} AbandonedReceive(m: Machine, p: Packet)
    requires Abandoned(m)
    ensures var n := Step(m, Deliver(p)); Abandoned(n) && n.acked == m.acked && n.wire == m.wire
  {
  }

  lemma {:induction false} AbandonedBlock(m: Machine)
    requires ConnectionInv(m) && AccountInv(m) && Abandoned(m)
    ensures var n := Go(m);
            && n.c.conn == Disconnected && n.c.crane == 0 && n.acked == m.acked && (Acting(n.task) || n.result != 0)
            && m.wire <= n.wire && forall i :: |m.wire| <= i < |n.wire| ==> n.wire[i].to == 0
  {
  }

  /** The events can happen one after the other, and the action under way at `m` returns at the last of
      them at the earliest. */
  ghost predicate WithinAction(m: Machine, events: seq<Event>)
    decreases |events|
  {
    events != [] ==> Acting(m.task) && Enabled(m, events[0]) && WithinAction(Step(m, events[0]), events[1..])
  }

  ghost function Following(m: Machine, events: seq<Event>): Machine
    decreases |events|
  {
    if events == [] then m else Following(Step(m, events[0]), events[1..])
  }

  lemma {:induction false} AbandonedActionFails(m: Machine, events: seq<Event>)
    requires Reachable(m) && Abandoned(m) && WithinAction(m, events)
    ensures var n := Following(m, events);
            && n.c.conn == Disconnected && n.acked == m.acked && (Acting(n.task) || n.result != 0)
            && m.wire <= n.wire && forall i :: |m.wire| <= i < |n.wire| ==> n.wire[i].to == 0
    decreases |events|
  {
    if events != [] {
      var n := Step(m, events[0]);
      AbandonedStep(m, events[0]);
      ReachableStep(m, events[0]);
      hide Step; hide Reachable;
      if Acting(n.task) {
        AbandonedActionFails(n, events[1..]);
      } else {
        assert events[1..] == [];
      }
    }
  }

  /** If the crane closes while an action is under way, then whatever happens from there until it returns,
      the client stays disconnected, the action is not acknowledged, everything it still sends goes to
      node 0, and it does not return 0. */
  lemma {:induction false} ClosedActionFails(m: Machine, close: Packet, events: seq<Event>)
    requires Reachable(m) && Acting(m.task) && close.kind == CLOSE
    requires WithinAction(Step(m, Deliver(close)), events)
    ensures var n := Following(Step(m, Deliver(close)), events);
            && n.c.conn == Disconnected && n.acked == m.acked && (Acting(n.task) || n.result != 0)
            && m.wire <= n.wire && forall i :: |m.wire| <= i < |n.wire| ==> n.wire[i].to == 0
  {
    var closed := Step(m, Deliver(close));
    ReachableStep(m, Deliver(close));
    assert Abandoned(closed) && closed.acked == m.acked && closed.wire == m.wire;
    hide Step; hide Reachable; hide WithinAction; hide Following;
    AbandonedActionFails(closed, events);
  }

  // ----- One read -----

  /** What read_acks has taken from the queue so far is reported by its largest number, 0 exactly if it
      has taken nothing. */
  lemma {:induction false} ReadIsMaximum(m: Machine)
    requires Reachable(m)
    ensures m.task.Drain? ==> IsMaximum(m.task.best, m.drained)
  {
    ReachableTrail(m);
  }

  /** A block of a read moves numbers from the head of the queue to what was taken, and loses none; other
      events only add to the queue. */
  lemma {:induction false} ReadTakesInOrder(m: Machine, e: Event)
    requires Enabled(m, e) && Waiting(m.task)
    ensures var n := Step(m, e);
            if e.Resume? then (if m.task.Await? then [] else m.drained) + m.c.acks == n.drained + n.c.acks
            else n.drained == m.drained && m.c.acks <= n.c.acks
  {
    if e.Resume? {
      ResumeGoes(m, e.waited);
      assert m.c.acks != [] ==> m.c.acks == [m.c.acks[0]] + m.c.acks[1..];
    }
  }
}
